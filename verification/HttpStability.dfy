/** Once the parser has an answer, more bytes do not change it; and where a
    successful parse has put its line breaks. */
module HttpStability {
  import opened Bytes
  import opened HttpSyntax

  /** The second answer keeps the first, unless that was "partial". */
  ghost predicate Keeps<T(!new)>(a: Parse<T>, b: Parse<T>) {
    a.Partial? || a == b
  }

  lemma ScanStable(s: seq<Byte>, t: seq<Byte>, p: nat, k: Stop)
    requires s <= t && p <= |s| && Scan(s, p, k) < |s|
    ensures Scan(t, p, k) == Scan(s, p, k)
  {
    ScanStretch(s, p, k);
    ScanUnique(t, p, k, Scan(s, p, k));
  }

  lemma LineStable(s: seq<Byte>, t: seq<Byte>, p: nat)
    requires s <= t && p <= |s|
    ensures Keeps(Line(s, p), Line(t, p))
  {
    var q := Scan(s, p, AtLineControl);
    if q < |s| {
      ScanStable(s, t, p, AtLineControl);
      BreakStable(s, t, q);
      hide Scan, Break;
    }
  }

  lemma BreakStable(s: seq<Byte>, t: seq<Byte>, p: nat)
    requires s <= t && p < |s|
    ensures Keeps(Break(s, p), Break(t, p))
  {
  }

  lemma TokenStable(s: seq<Byte>, t: seq<Byte>, p: nat, next: Byte)
    requires s <= t && p <= |s|
    ensures Keeps(Token(s, p, next), Token(t, p, next))
  {
    if Scan(s, p, AtTokenEnd(next)) < |s| {
      ScanStable(s, t, p, AtTokenEnd(next));
    }
  }

  lemma TargetStable(s: seq<Byte>, t: seq<Byte>, p: nat)
    requires s <= t && p <= |s|
    ensures Keeps(Target(s, p), Target(t, p))
  {
    if Scan(s, p, AtPathEnd) < |s| {
      ScanStable(s, t, p, AtPathEnd);
    }
  }

  lemma SkipSpacesStable(s: seq<Byte>, t: seq<Byte>, p: nat)
    requires s <= t && p <= |s|
    ensures Keeps(SkipSpaces(s, p), SkipSpaces(t, p))
  {
    if Scan(s, p, AtNonSpace) < |s| {
      ScanStable(s, t, p, AtNonSpace);
    }
  }

  lemma VersionStable(s: seq<Byte>, t: seq<Byte>, p: nat)
    requires s <= t && p <= |s|
    ensures Keeps(Version(s, p), Version(t, p))
  {
    if |s| - p >= 9 {
      assert s[p..p + 7] == t[p..p + 7];
    }
  }

  lemma {:induction false} TrimmedStable(s: seq<Byte>, t: seq<Byte>, start: nat, end: nat)
    requires s <= t && start <= end <= |s|
    ensures Trimmed(s, start, end) == Trimmed(t, start, end)
    decreases end
  {
    if start < end && Blank(s[end - 1]) {
      TrimmedStable(s, t, start, end - 1);
    }
  }

  lemma HeaderNameStable(s: seq<Byte>, t: seq<Byte>, p: nat, first: bool)
    requires s <= t && p < |s|
    ensures Keeps(HeaderName(s, p, first), HeaderName(t, p, first))
  {
    hide Scan, Token;
    if first || !Blank(s[p]) {
      TokenStable(s, t, p, COLON);
      var name := Token(s, p, COLON);
      if name.Ok? && Scan(s, name.pos + 1, AtNonBlank) < |s| {
        ScanStable(s, t, name.pos + 1, AtNonBlank);
      }
    }
  }

  lemma HeaderLineStable(s: seq<Byte>, t: seq<Byte>, p: nat, first: bool)
    requires s <= t && p < |s|
    ensures Keeps(HeaderLine(s, p, first), HeaderLine(t, p, first))
  {
    hide HeaderName, Line, Trimmed;
    HeaderNameStable(s, t, p, first);
    var name := HeaderName(s, p, first);
    if name.Ok? {
      LineStable(s, t, name.pos);
      var text := Line(s, name.pos);
      if text.Ok? {
        TrimmedStable(s, t, name.pos, text.value.End());
      }
    }
  }

  lemma {:induction false} HeadersStable(s: seq<Byte>, t: seq<Byte>, p: nat, n: nat, max: nat)
    requires s <= t && p <= |s|
    ensures Keeps(Headers(s, p, n, max), Headers(t, p, n, max))
    decreases |s| - p
  {
    hide HeaderLine;
    if Break(s, p) == Ok(p, false) && n != max {
      HeaderLineStable(s, t, p, n == 0);
      var h := HeaderLine(s, p, n == 0);
      if h.Ok? {
        HeadersStable(s, t, h.pos, n + 1, max);
      }
    }
  }

  lemma MethodAndTargetStable(s: seq<Byte>, t: seq<Byte>, p: nat)
    requires s <= t && p <= |s|
    ensures Keeps(MethodAndTarget(s, p), MethodAndTarget(t, p))
  {
    hide Token, Target, SkipSpaces;
    TokenStable(s, t, p, SP);
    var m := Token(s, p, SP);
    if m.Ok? {
      SkipSpacesStable(s, t, m.pos + 1);
      var a := SkipSpaces(s, m.pos + 1);
      if a.Ok? {
        TargetStable(s, t, a.pos);
        var path := Target(s, a.pos);
        if path.Ok? {
          SkipSpacesStable(s, t, path.pos + 1);
        }
      }
    }
  }

  lemma RequestLineStable(s: seq<Byte>, t: seq<Byte>, p: nat)
    requires s <= t && p <= |s|
    ensures Keeps(RequestLine(s, p), RequestLine(t, p))
  {
    hide MethodAndTarget, Version;
    MethodAndTargetStable(s, t, p);
    var pair := MethodAndTarget(s, p);
    if pair.Ok? {
      VersionStable(s, t, pair.pos);
    }
  }

  lemma ParseRequestStable(s: seq<Byte>, t: seq<Byte>, max: nat)
    requires s <= t
    ensures Keeps(ParseRequest(s, max), ParseRequest(t, max))
  {
    hide RequestLine, Headers;
    var start := Break(s, 0);
    if start.Ok? {
      RequestLineStable(s, t, start.pos);
      var line := RequestLine(s, start.pos);
      if line.Ok? {
        HeadersStable(s, t, line.pos, 0, max);
      }
    }
  }

  lemma {:induction false} ScanWithinStable(s: seq<Byte>, t: seq<Byte>, p: nat, k: Stop, end: nat)
    requires s <= t && p <= end < |s| && Stops(k, s[end])
    ensures ScanWithin(s, p, k, end) == ScanWithin(t, p, k, end)
    decreases end - p
  {
    if !Stops(k, s[p]) {
      ScanWithinStable(s, t, p + 1, k, end);
    }
  }

  lemma ReasonStable(s: seq<Byte>, t: seq<Byte>, p: nat)
    requires s <= t && p <= |s|
    ensures Keeps(Reason(s, p), Reason(t, p))
  {
    LineStable(s, t, p);
    var text := Line(s, p);
    if text.Ok? && text.value.len > 0 && s[p] == SP {
      ScanWithinStable(s, t, p, AtNonSpace, text.value.End());
    }
  }

  lemma ParseStatusLineStable(s: seq<Byte>, t: seq<Byte>)
    requires s <= t
    ensures Keeps(ParseStatusLine(s), ParseStatusLine(t))
  {
    hide Version, SkipSpaces, Reason;
    VersionStable(s, t, 0);
    var v := Version(s, 0);
    if v.Ok? && s[v.pos] == SP {
      SkipSpacesStable(s, t, v.pos + 1);
    }
    var head := StatusHead(s);
    assert Keeps(head, StatusHead(t));
    if head.Ok? {
      var status := Status(s, head.pos);
      if status.Ok? {
        ReasonStable(s, t, status.pos);
      }
    }
  }

  /** Verdict monotonicity: success, with its count and slices, and rejection are
      final on every extension of the bytes. */
  lemma ParseStable(kind: Kind, s: seq<Byte>, t: seq<Byte>, max: nat)
    requires s <= t
    ensures Keeps(ParseMessage(kind, s, max), ParseMessage(kind, t, max))
  {
    hide ParseStatusLine, Headers, ParseRequest;
    match kind
    case RequestKind => ParseRequestStable(s, t, max);
    case ResponseKind =>
      ParseStatusLineStable(s, t);
      var line := ParseStatusLine(s);
      if line.Ok? {
        HeadersStable(s, t, line.pos, 0, max);
      }
  }

  // ---------------------------------------------------------------- line breaks of a parsed message

  /** Every CR in [a, b) is followed by an LF in [a, b). */
  predicate Paired(s: seq<Byte>, a: nat, b: nat) {
    && a <= b <= |s|
    && forall i :: a <= i < b && s[i] == CR ==> i + 1 < b && s[i + 1] == LF
  }

  /** The line break that ends at `n` starts at `e` and stands on a line of its own. */
  predicate EmptyLine(s: seq<Byte>, e: nat, n: nat) {
    && 0 < e < n <= |s|
    && s[e - 1] == LF
    && Break(s, e) == Ok(n, true)
  }

  lemma BreakPaired(s: seq<Byte>, p: nat)
    requires p <= |s| && Break(s, p).Ok?
    ensures Paired(s, p, Break(s, p).pos)
    ensures Break(s, p).value ==> s[Break(s, p).pos - 1] == LF
  {
  }

  lemma LinePaired(s: seq<Byte>, p: nat)
    requires p <= |s| && Line(s, p).Ok?
    ensures Paired(s, p, Line(s, p).pos)
    ensures s[Line(s, p).pos - 1] == LF
  {
    var q := Scan(s, p, AtLineControl);
    ScanStretch(s, p, AtLineControl);
    assert forall i :: p <= i < q ==> !Stops(AtLineControl, s[i]) && s[i] != CR;
    BreakPaired(s, q);
  }

  lemma ScanPaired(s: seq<Byte>, p: nat, k: Stop)
    requires p <= |s|
    requires k.AtTokenEnd? || k.AtPathEnd? || k.AtNonSpace? || k.AtNonBlank?
    ensures Paired(s, p, Scan(s, p, k))
  {
    var q := Scan(s, p, k);
    ScanStretch(s, p, k);
    assert forall i :: p <= i < q ==> !Stops(k, s[i]) && s[i] != CR;
  }

  lemma PairedJoin(s: seq<Byte>, a: nat, b: nat, c: nat)
    requires Paired(s, a, b) && Paired(s, b, c)
    ensures Paired(s, a, c)
  {
  }

  lemma HeaderNamePaired(s: seq<Byte>, p: nat, first: bool)
    requires p < |s| && HeaderName(s, p, first).Ok?
    ensures Paired(s, p, HeaderName(s, p, first).pos)
  {
    hide Scan, Stops;
    var name := HeaderName(s, p, first);
    if name.value.Some? {
      var q := Scan(s, p, AtTokenEnd(COLON));
      ScanPaired(s, p, AtTokenEnd(COLON));
      ScanPaired(s, q + 1, AtNonBlank);
      assert s[q] == COLON;
    }
  }

  lemma HeaderLinePaired(s: seq<Byte>, p: nat, first: bool)
    requires p < |s| && HeaderLine(s, p, first).Ok?
    ensures Paired(s, p, HeaderLine(s, p, first).pos)
    ensures s[HeaderLine(s, p, first).pos - 1] == LF
  {
    hide HeaderName, Line, Trimmed, Paired;
    var v := HeaderName(s, p, first).pos;
    HeaderNamePaired(s, p, first);
    LinePaired(s, v);
    PairedJoin(s, p, v, Line(s, v).pos);
  }

  lemma {:induction false} HeadersPaired(s: seq<Byte>, p: nat, n: nat, max: nat) returns (e: nat)
    requires 0 < p <= |s| && s[p - 1] == LF && Headers(s, p, n, max).Ok?
    ensures Paired(s, p, Headers(s, p, n, max).pos)
    ensures EmptyLine(s, e, Headers(s, p, n, max).pos)
    decreases |s| - p
  {
    hide HeaderLine, Paired;
    BreakPaired(s, p);
    if Break(s, p).value {
      e := p;
    } else {
      HeaderLinePaired(s, p, n == 0);
      var next := HeaderLine(s, p, n == 0).pos;
      e := HeadersPaired(s, next, n + 1, max);
      PairedJoin(s, p, next, Headers(s, p, n, max).pos);
    }
  }

  lemma VersionPaired(s: seq<Byte>, p: nat)
    requires p <= |s| && Version(s, p).Ok?
    ensures Paired(s, p, Version(s, p).pos) && Version(s, p).pos < |s|
  {
    forall i | p <= i < p + 7
      ensures s[i] != CR
    {
      assert s[i] == s[p..p + 7][i - p];
    }
  }

  lemma MethodAndTargetPaired(s: seq<Byte>, p: nat)
    requires p <= |s| && MethodAndTarget(s, p).Ok?
    ensures Paired(s, p, MethodAndTarget(s, p).pos)
  {
    hide Scan, Stops;
    ScanPaired(s, p, AtTokenEnd(SP));
    var p1 := Token(s, p, SP).pos + 1;
    ScanPaired(s, p1, AtNonSpace);
    var p2 := SkipSpaces(s, p1).pos;
    assert Paired(s, p, p2);
    ScanPaired(s, p2, AtPathEnd);
    var p3 := Target(s, p2).pos + 1;
    ScanPaired(s, p3, AtNonSpace);
    PairedJoin(s, p, p2, p3);
    PairedJoin(s, p, p3, SkipSpaces(s, p3).pos);
  }

  lemma RequestLinePaired(s: seq<Byte>, p: nat)
    requires p <= |s| && RequestLine(s, p).Ok?
    ensures Paired(s, p, RequestLine(s, p).pos)
    ensures s[RequestLine(s, p).pos - 1] == LF
  {
    hide MethodAndTarget, Version, Paired;
    MethodAndTargetPaired(s, p);
    var q := MethodAndTarget(s, p).pos;
    VersionPaired(s, q);
    BreakPaired(s, q + 8);
    PairedJoin(s, p, q, q + 8);
    PairedJoin(s, p, q + 8, RequestLine(s, p).pos);
  }

  lemma StatusLinePaired(s: seq<Byte>)
    requires ParseStatusLine(s).Ok?
    ensures Paired(s, 0, ParseStatusLine(s).pos)
    ensures 0 < ParseStatusLine(s).pos && s[ParseStatusLine(s).pos - 1] == LF
  {
    hide Scan, Version, Line;
    VersionPaired(s, 0);
    ScanPaired(s, 9, AtNonSpace);
    var p := StatusHead(s).pos;
    assert Paired(s, 0, p + 3);
    LinePaired(s, p + 3);
  }

  /** Where a successful parse ends: behind an empty line, and with no CR that is not
      part of a CRLF before it. */
  lemma ParsePaired(kind: Kind, s: seq<Byte>, max: nat) returns (e: nat)
    requires ParseMessage(kind, s, max).Ok?
    ensures Paired(s, 0, ParseMessage(kind, s, max).pos)
    ensures EmptyLine(s, e, ParseMessage(kind, s, max).pos)
  {
    hide RequestLine, Headers, ParseStatusLine;
    match kind
    case RequestKind =>
      BreakPaired(s, 0);
      var p := Break(s, 0).pos;
      RequestLinePaired(s, p);
      e := HeadersPaired(s, RequestLine(s, p).pos, 0, max);
    case ResponseKind =>
      StatusLinePaired(s);
      e := HeadersPaired(s, ParseStatusLine(s).pos, 0, max);
  }
}
