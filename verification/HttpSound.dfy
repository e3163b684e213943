/** What a successful parse hands out: ordered, disjoint slices of the consumed
    bytes, with the contents their grammar allows. */
module HttpSound {
  import opened Bytes
  import opened Wrappers
  import opened HttpSyntax

  predicate GoodToken(s: seq<Byte>, w: Slice) {
    && 0 < w.len && w.End() <= |s|
    && forall i :: w.start <= i < w.End() ==> TokenChar(s[i])
  }

  predicate GoodTarget(s: seq<Byte>, w: Slice) {
    && 0 < w.len && w.End() <= |s|
    && forall i :: w.start <= i < w.End() ==> !Control(s[i]) && s[i] != SP
  }

  predicate NoControl(s: seq<Byte>, w: Slice) {
    && w.End() <= |s|
    && forall i :: w.start <= i < w.End() ==> !Control(s[i]) || s[i] == HT
  }

  predicate GoodValue(s: seq<Byte>, w: Slice) {
    NoControl(s, w) && (w.len > 0 ==> !Blank(s[w.End() - 1]))
  }

  /** A named header has a token, a colon, blanks and a value; only a line that is not
      the first may go without a name, and then it starts with a blank. */
  predicate GoodHeader(s: seq<Byte>, h: Header, first: bool) {
    && GoodValue(s, h.value)
    && h.value.End() < |s|
    && match h.name
       case Some(name) =>
         && GoodToken(s, name)
         && name.End() < h.value.start
         && s[name.End()] == COLON
         && (forall i :: name.End() < i < h.value.start ==> Blank(s[i]))
         && (h.value.len > 0 ==> !Blank(s[h.value.start]))
       case None => !first && Blank(s[h.value.start])
  }

  function Begin(h: Header): nat {
    match h.name
    case Some(name) => name.start
    case None => h.value.start
  }

  /** Header `h` lies in [lo, hi). */
  predicate Within(h: Header, lo: nat, hi: nat) {
    lo <= Begin(h) && h.value.End() < hi
  }

  ghost predicate GoodHeaders(s: seq<Byte>, hs: seq<Header>, first: bool, lo: nat, hi: nat) {
    && (forall i :: 0 <= i < |hs| ==> GoodHeader(s, hs[i], first && i == 0) && Within(hs[i], lo, hi))
    && (forall i, j :: 0 <= i < j < |hs| ==> hs[i].value.End() < Begin(hs[j]))
  }

  ghost predicate GoodMessage(s: seq<Byte>, m: Message, n: nat, max: nat) {
    && n <= |s|
    && |m.headers| <= max
    && match m
       case Request(method_, path, minor, headers) =>
         && GoodToken(s, method_) && GoodTarget(s, path) && minor <= 9
         && method_.End() < path.start && path.End() < n
         && GoodHeaders(s, headers, true, path.End() + 1, n)
       case Response(minor, status, reason, headers) =>
         && NoControl(s, reason) && minor <= 9 && status <= 999
         && (reason.len > 0 ==> s[reason.start] != SP)
         && reason.End() < n
         && GoodHeaders(s, headers, true, reason.End() + 1, n)
  }

  lemma LineSound(s: seq<Byte>, p: nat)
    requires p <= |s| && Line(s, p).Ok?
    ensures NoControl(s, Line(s, p).value)
  {
    ScanStretch(s, p, AtLineControl);
    assert forall i :: p <= i < Scan(s, p, AtLineControl) ==> !Stops(AtLineControl, s[i]);
  }

  lemma TokenSound(s: seq<Byte>, p: nat, next: Byte)
    requires p <= |s| && Token(s, p, next).Ok? && Token(s, p, next).value.len > 0
    ensures GoodToken(s, Token(s, p, next).value)
  {
    ScanStretch(s, p, AtTokenEnd(next));
    assert forall i :: p <= i < Scan(s, p, AtTokenEnd(next)) ==> !Stops(AtTokenEnd(next), s[i]);
  }

  lemma TargetSound(s: seq<Byte>, p: nat)
    requires p <= |s| && Target(s, p).Ok? && Target(s, p).value.len > 0
    ensures GoodTarget(s, Target(s, p).value)
  {
    ScanStretch(s, p, AtPathEnd);
    assert forall i :: p <= i < Scan(s, p, AtPathEnd) ==> !Stops(AtPathEnd, s[i]);
  }

  /** What a parsed name guarantees about the bytes up to the value at `v`. */
  ghost predicate GoodName(s: seq<Byte>, p: nat, first: bool, name: Option<Slice>, v: nat) {
    && p <= v < |s|
    && match name
       case None => v == p && !first && Blank(s[v])
       case Some(w) =>
         && w.start == p && GoodToken(s, w) && w.End() < v && s[w.End()] == COLON
         && (forall i :: w.End() < i < v ==> Blank(s[i]))
         && !Blank(s[v])
  }

  lemma HeaderNameSound(s: seq<Byte>, p: nat, first: bool)
    requires p < |s| && HeaderName(s, p, first).Ok?
    ensures GoodName(s, p, first, HeaderName(s, p, first).value, HeaderName(s, p, first).pos)
  {
    hide Scan, Token, GoodToken;
    if first || !Blank(s[p]) {
      TokenSound(s, p, COLON);
      var q := Token(s, p, COLON).pos;
      ScanStretch(s, q + 1, AtNonBlank);
      assert forall i :: q + 1 <= i < Scan(s, q + 1, AtNonBlank) ==> !Stops(AtNonBlank, s[i]);
    }
  }

  lemma HeaderLineSound(s: seq<Byte>, p: nat, first: bool)
    requires p < |s| && HeaderLine(s, p, first).Ok?
    ensures var r := HeaderLine(s, p, first);
            GoodHeader(s, r.value, first) && Within(r.value, p, r.pos)
  {
    hide HeaderName, Line, GoodToken, Trimmed;
    HeaderNameSound(s, p, first);
    LineSound(s, HeaderName(s, p, first).pos);
  }

  lemma {:induction false} HeadersSound(s: seq<Byte>, p: nat, n: nat, max: nat)
    requires p <= |s| && n <= max && Headers(s, p, n, max).Ok?
    ensures var r := Headers(s, p, n, max);
            |r.value| + n <= max && GoodHeaders(s, r.value, n == 0, p, r.pos)
    decreases |s| - p
  {
    hide HeaderLine, GoodHeader;
    if Break(s, p) == Ok(p, false) {
      var h := HeaderLine(s, p, n == 0);
      HeaderLineSound(s, p, n == 0);
      HeadersSound(s, h.pos, n + 1, max);
      var more := Headers(s, h.pos, n + 1, max);
      GoodHeadersCons(s, h.value, more.value, n == 0, p, h.pos, more.pos);
    }
  }

  lemma GoodHeadersCons(s: seq<Byte>, h: Header, more: seq<Header>, first: bool, p: nat, q: nat, end: nat)
    requires p <= q <= end
    requires GoodHeader(s, h, first) && Within(h, p, q)
    requires GoodHeaders(s, more, false, q, end)
    ensures GoodHeaders(s, [h] + more, first, p, end)
  {
    hide GoodHeader;
    var hs := [h] + more;
    forall i | 0 <= i < |hs|
      ensures GoodHeader(s, hs[i], first && i == 0) && Within(hs[i], p, end)
    {
      assert i > 0 ==> hs[i] == more[i - 1];
    }
    forall i, j | 0 <= i < j < |hs|
      ensures hs[i].value.End() < Begin(hs[j])
    {
      assert hs[j] == more[j - 1];
      assert i > 0 ==> hs[i] == more[i - 1];
    }
  }

  lemma GoodHeadersLower(s: seq<Byte>, hs: seq<Header>, lo: nat, p: nat, end: nat)
    requires lo <= p && GoodHeaders(s, hs, true, p, end)
    ensures GoodHeaders(s, hs, true, lo, end)
  {
    hide GoodHeader;
  }

  lemma MethodAndTargetSound(s: seq<Byte>, p: nat)
    requires p <= |s| && MethodAndTarget(s, p).Ok?
    ensures var r := MethodAndTarget(s, p);
            && GoodToken(s, r.value.0) && GoodTarget(s, r.value.1)
            && p == r.value.0.start && r.value.0.End() < r.value.1.start
            && r.value.1.End() < r.pos
  {
    hide Token, Target, SkipSpaces, GoodToken, GoodTarget;
    TokenSound(s, p, SP);
    TargetSound(s, SkipSpaces(s, Token(s, p, SP).pos + 1).pos);
  }

  /** The method stands right behind the line break that is skipped. */
  lemma MethodStart(s: seq<Byte>, max: nat)
    requires ParseRequest(s, max).Ok?
    ensures Break(s, 0).Ok? && ParseRequest(s, max).value.method_.start == Break(s, 0).pos
    ensures GoodToken(s, ParseRequest(s, max).value.method_)
  {
    hide MethodAndTarget, Version, Headers, GoodToken, GoodTarget;
    MethodAndTargetSound(s, Break(s, 0).pos);
  }

  lemma ReasonSound(s: seq<Byte>, p: nat)
    requires p <= |s| && Reason(s, p).Ok?
    ensures var r := Reason(s, p);
            && NoControl(s, r.value) && p <= r.value.start && r.value.End() < r.pos
            && (r.value.len > 0 ==> s[r.value.start] != SP)
  {
    hide Line;
    LineSound(s, p);
    var text := Line(s, p).value;
    if text.len > 0 {
      ScanWithinStops(s, p, AtNonSpace, text.End());
    }
  }

  lemma {:induction false} ScanWithinStops(s: seq<Byte>, p: nat, k: Stop, end: nat)
    requires p <= end < |s| && Stops(k, s[end])
    ensures Stops(k, s[ScanWithin(s, p, k, end)])
    decreases end - p
  {
    if !Stops(k, s[p]) {
      ScanWithinStops(s, p + 1, k, end);
    }
  }

  /** Parser soundness, for requests and responses. */
  lemma ParseSound(kind: Kind, s: seq<Byte>, max: nat)
    requires ParseMessage(kind, s, max).Ok?
    ensures var r := ParseMessage(kind, s, max);
            GoodMessage(s, r.value, r.pos, max)
  {
    match kind
    case RequestKind => RequestSound(s, max);
    case ResponseKind => ResponseSound(s, max);
  }

  lemma RequestSound(s: seq<Byte>, max: nat)
    requires ParseRequest(s, max).Ok?
    ensures GoodMessage(s, ParseRequest(s, max).value, ParseRequest(s, max).pos, max)
  {
    hide MethodAndTarget, Version, Headers, GoodToken, GoodTarget, GoodHeaders;
    var p := Break(s, 0).pos;
    MethodAndTargetSound(s, p);
    var line := RequestLine(s, p);
    HeadersSound(s, line.pos, 0, max);
    var hs := Headers(s, line.pos, 0, max);
    GoodHeadersLower(s, hs.value, line.value.path.End() + 1, line.pos, hs.pos);
  }

  lemma ResponseSound(s: seq<Byte>, max: nat)
    requires ParseResponse(s, max).Ok?
    ensures GoodMessage(s, ParseResponse(s, max).value, ParseResponse(s, max).pos, max)
  {
    hide StatusHead, Reason, Headers, GoodHeaders, NoControl;
    StatusHeadSound(s);
    ReasonSound(s, StatusHead(s).pos + 3);
    var line := ParseStatusLine(s);
    HeadersSound(s, line.pos, 0, max);
    var hs := Headers(s, line.pos, 0, max);
    GoodHeadersLower(s, hs.value, line.value.reason.End() + 1, line.pos, hs.pos);
  }

  lemma StatusHeadSound(s: seq<Byte>)
    requires StatusHead(s).Ok?
    ensures StatusHead(s).value <= 9
  {
    hide Version, SkipSpaces;
  }
}
