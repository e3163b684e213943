/** Requests given by their parts are assembled from whatever pieces they arrive in. */
module Assembly {
  import opened Bytes
  import opened HttpLimits
  import opened HttpSyntax
  import opened HttpText
  import opened ContentLength
  import opened Reader
  import opened Reception

  /** End-to-end assembly. From an empty buffer and for every cut into pieces, a stream
      of a complete header section and a body is served if and only if it holds as much
      body as is announced. If that is all of it, the right header size, the parsed
      request and exactly that body come out; the header bytes, and so every slice, are
      still in place. */
  lemma {:induction false} EndToEnd(head: seq<Byte>, body: seq<Byte>, script: seq<Event>)
    requires ParseMessage(RequestKind, head, MAX_HEADERS).Ok?
    requires ParseMessage(RequestKind, head, MAX_HEADERS).pos == |head|
    requires |head| + |body| <= MAX_BUFFR && Stream(script) == head + body
    ensures var r := ParseMessage(RequestKind, head, MAX_HEADERS);
            var p := ReadRequest(EMPTY, script);
            && (p.stage.Done? <==> Announced(head) <= |body|)
            && (Announced(head) == |body| ==>
                  && p.stage == Done(Served(|head|, r.value, body))
                  && p.buffer.data == head + body && Stream(p.script) == [])
  {
    hide ParseMessage, ReadRequest, Announced, Stream;
    var s := head + body;
    assert [] + Stream(script) == s;
    AnnouncedStays(head, s);
    NothingParsed();
    ServedExactly(EMPTY, script);
    if Announced(head) == |body| {
      var p := ReadRequest(EMPTY, script);
      AllTaken(p.buffer.data, Stream(p.script), s);
      assert s[|head|..] == body;
    }
  }

  lemma AllTaken(a: seq<Byte>, b: seq<Byte>, s: seq<Byte>)
    requires a + b == s && a <= s && |s| <= |a|
    ensures a == s && b == []
  {
    assert |a + b| == |a| + |b|;
  }

  /** A request by its parts. */
  datatype Sent = Sent(method_: seq<Byte>, path: seq<Byte>, minor: nat, fields: seq<Field>, body: seq<Byte>)

  /** The fields announce `n` bytes: by an exact-case Content-Length in decimal that is
      the first of that name, or, for none, by not naming it at all. */
  ghost predicate Announces(fs: seq<Field>, n: nat) {
    || (n == 0 && forall i :: 0 <= i < |fs| ==> fs[i].name != CONTENT_LENGTH)
    || exists k :: && 0 <= k < |fs| && fs[k] == Field(CONTENT_LENGTH, Decimal(n))
                   && forall i :: 0 <= i < k ==> fs[i].name != CONTENT_LENGTH
  }

  ghost predicate WellFormedHead(r: Sent) {
    && r.minor <= 9 && TokenText(r.method_) && TargetText(r.path)
    && |r.fields| <= MAX_HEADERS && (forall i :: 0 <= i < |r.fields| ==> GoodField(r.fields[i]))
  }

  ghost predicate WellFormed(r: Sent) {
    WellFormedHead(r) && Announces(r.fields, |r.body|)
  }

  function HeaderText(r: Sent): seq<Byte>
    requires r.minor <= 9
  {
    RequestText(r.method_, r.path, r.minor, r.fields)
  }

  /** The announced length of a printed request is read back from its slices. */
  lemma {:induction false} AnnouncedLength(s: seq<Byte>, hs: seq<Header>, fs: seq<Field>, n: nat)
    requires Says(s, hs, fs) && n < 0x8000_0000 && Announces(fs, n)
    ensures InBuffer(s, hs) && BodyLength(s, hs) == n
    decreases |hs|
  {
    forall i | 0 <= i < |hs|
      ensures hs[i].value.End() <= |s| && (hs[i].name.Some? ==> hs[i].name.value.End() <= |s|)
    {
      assert Shows(s, hs[i], fs[i]);
    }
    if hs != [] {
      assert Shows(s, hs[0], fs[0]);
      if fs[0].name == CONTENT_LENGTH {
        DecimalLength(n);
      } else {
        TailSays(s, hs, fs);
        TailAnnounces(fs, n);
        AnnouncedLength(s, hs[1..], fs[1..], n);
      }
    }
  }

  lemma TailSays(s: seq<Byte>, hs: seq<Header>, fs: seq<Field>)
    requires Says(s, hs, fs) && hs != []
    ensures Says(s, hs[1..], fs[1..])
  {
    forall i | 0 <= i < |fs[1..]|
      ensures Shows(s, hs[1..][i], fs[1..][i])
    {
      assert Shows(s, hs[i + 1], fs[i + 1]);
    }
  }

  lemma TailAnnounces(fs: seq<Field>, n: nat)
    requires fs != [] && fs[0].name != CONTENT_LENGTH && Announces(fs, n)
    ensures Announces(fs[1..], n)
  {
    var more := fs[1..];
    assert forall i :: 0 <= i < |more| ==> more[i] == fs[i + 1];
    if k :| && 0 <= k < |fs| && fs[k] == Field(CONTENT_LENGTH, Decimal(n))
            && forall i :: 0 <= i < k ==> fs[i].name != CONTENT_LENGTH {
      assert more[k - 1] == Field(CONTENT_LENGTH, Decimal(n));
    }
  }

  /** The request came out as it was sent. */
  ghost predicate AsSent(p: Progress<Served>, r: Sent) {
    && p.stage.Done?
    && p.stage.value.body == r.body
    && SaysRequest(p.buffer.data, p.stage.value.request, r.method_, r.path, r.minor, r.fields)
  }

  lemma LeadIsPartial(lead: seq<Byte>)
    requires Skippable(lead)
    ensures ParseMessage(RequestKind, lead, MAX_HEADERS) == Partial
  {
  }

  /** Every well-formed request, given by its parts, comes out as it was sent, for every
      cut into pieces; also from a buffer that holds one line break. */
  lemma {:induction false} PrintedEndToEnd(b: Buffer, r: Sent, script: seq<Event>)
    requires InBounds(b) && Skippable(b.data) && WellFormed(r)
    requires |b.data| + |HeaderText(r)| + |r.body| <= MAX_BUFFR
    requires Stream(script) == HeaderText(r) + r.body
    ensures var p := ReadRequest(b, script);
            && AsSent(p, r)
            && p.stage.value.size == |b.data| + |HeaderText(r)|
            && p.buffer.data == b.data + HeaderText(r) + r.body && Stream(p.script) == []
  {
    hide ParseMessage, ReadRequest, Stream, SaysRequest, RequestText, Announces;
    var s := b.data + HeaderText(r) + r.body;
    assert b.data + Stream(script) == s;
    LeadIsPartial(b.data);
    RequestRoundTrip(b.data, r.method_, r.path, r.minor, r.fields, MAX_HEADERS, r.body);
    PrintedAnnounces(s, r, |r.body|);
    ServedExactly(b, script);
    var p := ReadRequest(b, script);
    AllTaken(p.buffer.data, Stream(p.script), s);
    assert s[|b.data| + |HeaderText(r)|..] == r.body;
  }

  lemma PrintedAnnounces(s: seq<Byte>, r: Sent, n: nat)
    requires ParseMessage(RequestKind, s, MAX_HEADERS).Ok? && Announces(r.fields, n) && n < 0x8000_0000
    requires SaysRequest(s, ParseMessage(RequestKind, s, MAX_HEADERS).value, r.method_, r.path, r.minor, r.fields)
    ensures Announced(s) == n
  {
    hide ParseMessage, BodyLength, Says, Announces;
    AnnouncedLength(s, ParseMessage(RequestKind, s, MAX_HEADERS).value.headers, r.fields, n);
  }

  /** A request that announces more body than there is room for behind its header section
      is refused with 400, however much of it arrives and in whatever pieces. */
  lemma {:induction false} TooLargeIsRefused(r: Sent, n: nat, script: seq<Event>)
    requires WellFormedHead(r) && Announces(r.fields, n) && n < 0x8000_0000
    requires |HeaderText(r)| <= 8192 < |HeaderText(r)| + n
    requires HeaderText(r) <= Stream(script)
    ensures ReadRequest(EMPTY, script).stage == Refused(400)
  {
    hide ParseMessage, ReadHeader, Stream, SaysRequest, RequestText, Announces, Announced, BodyLength;
    var head := HeaderText(r);
    var s := Received([], script);
    assert [] + Stream(script) == Stream(script);
    var extra := s[|head|..];
    assert s == [] + head + extra;
    RequestRoundTrip([], r.method_, r.path, r.minor, r.fields, MAX_HEADERS, extra);
    PrintedAnnounces(s, r, n);
    NothingParsed();
    HeaderExact(EMPTY, script);
    HeaderKeepsBounds(EMPTY, script);
    var p := ReadHeader(EMPTY, script);
    HeaderAccepts(EMPTY, script);
    PrefixOfReceived(p.buffer.data, p.script, [], script);
    AnnouncedStays(p.buffer.data, s);
    AnnouncedIs(p);
  }

  lemma AnnouncedIs(p: Progress<Headed>)
    requires Consistent(p) && p.stage.Done?
    requires ParseMessage(RequestKind, p.buffer.data, MAX_HEADERS) == Ok(p.stage.value.size, p.stage.value.request)
    ensures Announced(p.buffer.data) > MAX_BUFFR - p.stage.value.size ==> Finish(p).stage == Refused(400)
  {
    hide ParseMessage, BodyLength, ReadBody;
  }

  /** There are such requests: every body that fits can be announced. */
  lemma AnnouncingRequest(body: seq<Byte>) returns (r: Sent)
    requires |body| <= 8192 - 41
    ensures WellFormed(r) && r.body == body
    ensures r.fields == [Field(Ascii("Content-Length"), Decimal(|body|))]
    ensures |HeaderText(r)| + |body| <= 8192
  {
    hide TokenChar, Control;
    var n := |body|;
    r := Sent(Ascii("POST"), Ascii("/"), 0, [Field(CONTENT_LENGTH, Decimal(n))], body);
    PlainTokens();
    DecimalLength(n);
    assert Pow10(4) == 10_000;
    DecimalSize(n, 4);
    assert r.fields[0] == Field(CONTENT_LENGTH, Decimal(n));
    assert Announces(r.fields, n);
    HeaderLength(r);
  }

  lemma HeaderLength(r: Sent)
    requires r.minor <= 9 && |r.fields| == 1
    ensures |HeaderText(r)| ==
            |r.method_| + |r.path| + |r.fields[0].name| + |r.fields[0].value| + 18
  {
    assert r.fields[1..] == [];
    assert |FieldLines(r.fields)| == |FieldLine(r.fields[0])|;
  }

  lemma PlainTokens()
    ensures TokenText(Ascii("POST")) && TokenText(CONTENT_LENGTH) && TargetText(Ascii("/"))
  {
    assert forall i :: 0 <= i < 14 ==> TokenChar("Content-Length"[i] as int);
    assert forall i :: 0 <= i < 4 ==> TokenChar("POST"[i] as int);
  }
}
