/** Parsing a growing buffer: the exported parsers are called again and again with
    the length they have already seen, and skip the full parse until an empty line
    has shown up. */
module HttpIncremental {
  import opened Bytes
  import opened HttpSyntax
  import opened HttpStability

  /** From any point before the empty line that ends a message, the search succeeds. */
  lemma {:induction false} SearchSucceeds(s: seq<Byte>, p: nat, run: nat, e: nat, n: nat)
    requires EmptyLine(s, e, n) && Paired(s, 0, n)
    requires run < 2 && (p < e || (p == e && run == 1))
    ensures FindEmptyLine(s, p, run).Ok?
    decreases e - p
  {
    if p < e {
      var b := Break(s, p);
      assert b.Ok?;
      if b.value {
        assert b.pos <= e;
        if run == 0 {
          SearchSucceeds(s, b.pos, 1, e, n);
        }
      } else {
        assert p + 1 < e;
        SearchSucceeds(s, p + 1, 0, e, n);
      }
    }
  }

  /** A rejection by the search names a CR that no LF follows. */
  lemma {:induction false} SearchRejects(s: seq<Byte>, p: nat, run: nat) returns (i: nat)
    requires p <= |s| && run < 2 && FindEmptyLine(s, p, run).Bad?
    ensures i + 1 < |s| && s[i] == CR && s[i + 1] != LF
    decreases |s| - p
  {
    var b := Break(s, p);
    if b.Bad? {
      i := p;
    } else if b.value {
      i := SearchRejects(s, b.pos, 1);
    } else {
      i := SearchRejects(s, p + 1, 0);
    }
  }

  /** The shortcut never holds back a message that is there: with the previous
      length short of its end, the call equals the full parse. */
  lemma ShortcutTransparent(kind: Kind, s: seq<Byte>, max: nat, lastLen: nat)
    requires lastLen <= |s| && ParseMessage(kind, s, max).Ok?
    requires lastLen <= ParseMessage(kind, s, max).pos
    ensures Phr(kind, s, max, lastLen) == ParseMessage(kind, s, max)
  {
    hide ParseMessage, FindEmptyLine;
    var n := ParseMessage(kind, s, max).pos;
    var e := ParsePaired(kind, s, max);
    SearchSucceeds(s, if lastLen < 3 then 0 else lastLen - 3, 0, e, n);
  }

  /** On every prefix that misses part of a message, the call asks for more. */
  lemma PrefixIsPartial(kind: Kind, s: seq<Byte>, max: nat, len: nat, lastLen: nat)
    requires ParseMessage(kind, s, max).Ok?
    requires lastLen <= len <= |s| && len < ParseMessage(kind, s, max).pos
    ensures Phr(kind, s[..len], max, lastLen) == Partial
  {
    hide ParseMessage, FindEmptyLine;
    var t := s[..len];
    ParseStable(kind, t, s, max);
    assert ParseMessage(kind, t, max).Partial?;
    var e := ParsePaired(kind, s, max);
    if lastLen != 0 && IsComplete(t, lastLen).Bad? {
      var i := SearchRejects(t, if lastLen < 3 then 0 else lastLen - 3, 0);
      assert false;
    }
  }

  /** One call during reception of a stream that starts with a message of `n` bytes. */
  lemma {:induction false} IncrementalStep(kind: Kind, s: seq<Byte>, max: nat, len: nat, lastLen: nat)
    requires ParseMessage(kind, s, max).Ok?
    requires lastLen <= len <= |s| && lastLen < ParseMessage(kind, s, max).pos
    ensures Phr(kind, s[..len], max, lastLen) ==
            if len < ParseMessage(kind, s, max).pos then Partial else ParseMessage(kind, s, max)
  {
    hide ParseMessage, Phr;
    var n := ParseMessage(kind, s, max).pos;
    if len < n {
      PrefixIsPartial(kind, s, max, len, lastLen);
    } else {
      var t := s[..len];
      ParseStable(kind, t, s, max);
      PrefixDecides(kind, s, max, len);
      ShortcutTransparent(kind, t, max, lastLen);
    }
  }

  /** A prefix that holds the whole message parses like the stream. */
  lemma {:induction false} PrefixDecides(kind: Kind, s: seq<Byte>, max: nat, len: nat)
    requires ParseMessage(kind, s, max).Ok?
    requires ParseMessage(kind, s, max).pos <= len <= |s|
    ensures ParseMessage(kind, s[..len], max) == ParseMessage(kind, s, max)
  {
    hide ParseRequest, ParseResponse;
    match kind
    case RequestKind => RequestPrefix(s, max, len);
    case ResponseKind => ResponsePrefix(s, max, len);
  }

  // A parse that succeeds looks at nothing behind the position it reaches.

  lemma ScanPrefix(s: seq<Byte>, p: nat, k: Stop, len: nat)
    requires p <= |s| && Scan(s, p, k) < len <= |s|
    ensures p <= |s[..len]| && Scan(s[..len], p, k) == Scan(s, p, k)
  {
    ScanStretch(s, p, k);
    ScanUnique(s[..len], p, k, Scan(s, p, k));
  }

  lemma LinePrefix(s: seq<Byte>, p: nat, len: nat)
    requires p <= |s| && Line(s, p).Ok? && Line(s, p).pos <= len <= |s|
    ensures Line(s[..len], p) == Line(s, p)
  {
    hide Scan;
    ScanPrefix(s, p, AtLineControl, len);
  }

  lemma {:induction false} TrimmedPrefix(s: seq<Byte>, start: nat, end: nat, len: nat)
    requires start <= end <= len <= |s|
    ensures Trimmed(s[..len], start, end) == Trimmed(s, start, end)
  {
    TrimmedStable(s[..len], s, start, end);
  }

  lemma HeaderNamePrefix(s: seq<Byte>, p: nat, first: bool, len: nat)
    requires p < |s| && HeaderName(s, p, first).Ok? && HeaderName(s, p, first).pos < len <= |s|
    ensures HeaderName(s[..len], p, first) == HeaderName(s, p, first)
  {
    hide Scan;
    if first || !Blank(s[p]) {
      ScanPrefix(s, p, AtTokenEnd(COLON), len);
      ScanPrefix(s, Token(s, p, COLON).pos + 1, AtNonBlank, len);
    }
  }

  lemma HeaderLinePrefix(s: seq<Byte>, p: nat, first: bool, len: nat)
    requires p < |s| && HeaderLine(s, p, first).Ok? && HeaderLine(s, p, first).pos <= len <= |s|
    ensures HeaderLine(s[..len], p, first) == HeaderLine(s, p, first)
  {
    hide HeaderName, Line, Trimmed;
    HeaderNamePrefix(s, p, first, len);
    var v := HeaderName(s, p, first).pos;
    LinePrefix(s, v, len);
    TrimmedPrefix(s, v, Line(s, v).value.End(), len);
  }

  lemma {:induction false} HeadersPrefix(s: seq<Byte>, p: nat, n: nat, max: nat, len: nat)
    requires p <= |s| && Headers(s, p, n, max).Ok? && Headers(s, p, n, max).pos <= len <= |s|
    ensures Headers(s[..len], p, n, max) == Headers(s, p, n, max)
    decreases |s| - p
  {
    hide HeaderLine;
    if Break(s, p) == Ok(p, false) {
      HeaderLinePrefix(s, p, n == 0, len);
      HeadersPrefix(s, HeaderLine(s, p, n == 0).pos, n + 1, max, len);
    }
  }

  lemma MethodAndTargetPrefix(s: seq<Byte>, p: nat, len: nat)
    requires p <= |s| && MethodAndTarget(s, p).Ok? && MethodAndTarget(s, p).pos < len <= |s|
    ensures MethodAndTarget(s[..len], p) == MethodAndTarget(s, p)
  {
    hide Scan;
    ScanPrefix(s, p, AtTokenEnd(SP), len);
    var p1 := Token(s, p, SP).pos + 1;
    ScanPrefix(s, p1, AtNonSpace, len);
    var p2 := SkipSpaces(s, p1).pos;
    ScanPrefix(s, p2, AtPathEnd, len);
    ScanPrefix(s, Target(s, p2).pos + 1, AtNonSpace, len);
  }

  lemma RequestLinePrefix(s: seq<Byte>, p: nat, len: nat)
    requires p <= |s| && RequestLine(s, p).Ok? && RequestLine(s, p).pos <= len <= |s|
    ensures RequestLine(s[..len], p) == RequestLine(s, p)
  {
    hide MethodAndTarget;
    MethodAndTargetPrefix(s, p, len);
    var p1 := MethodAndTarget(s, p).pos;
    assert s[..len][p1..p1 + 7] == s[p1..p1 + 7];
  }

  lemma RequestPrefix(s: seq<Byte>, max: nat, len: nat)
    requires ParseRequest(s, max).Ok? && ParseRequest(s, max).pos <= len <= |s|
    ensures ParseRequest(s[..len], max) == ParseRequest(s, max)
  {
    hide RequestLine, Headers;
    var p := Break(s, 0).pos;
    RequestLinePrefix(s, p, len);
    HeadersPrefix(s, RequestLine(s, p).pos, 0, max, len);
  }

  lemma ReasonPrefix(s: seq<Byte>, p: nat, len: nat)
    requires p <= |s| && Reason(s, p).Ok? && Reason(s, p).pos <= len <= |s|
    ensures Reason(s[..len], p) == Reason(s, p)
  {
    hide Line, ScanWithin;
    LinePrefix(s, p, len);
    var text := Line(s, p).value;
    if text.len > 0 {
      ScanWithinStable(s[..len], s, p, AtNonSpace, text.End());
    }
  }

  lemma StatusLinePrefix(s: seq<Byte>, len: nat)
    requires ParseStatusLine(s).Ok? && ParseStatusLine(s).pos <= len <= |s|
    ensures ParseStatusLine(s[..len]) == ParseStatusLine(s)
  {
    hide Scan, Reason;
    assert s[..len][0..7] == s[0..7];
    ScanPrefix(s, 9, AtNonSpace, len);
    ReasonPrefix(s, StatusHead(s).pos + 3, len);
  }

  lemma ResponsePrefix(s: seq<Byte>, max: nat, len: nat)
    requires ParseResponse(s, max).Ok? && ParseResponse(s, max).pos <= len <= |s|
    ensures ParseResponse(s[..len], max) == ParseResponse(s, max)
  {
    hide ParseStatusLine, Headers;
    StatusLinePrefix(s, len);
    HeadersPrefix(s, ParseStatusLine(s).pos, 0, max, len);
  }

  // ---------------------------------------------------------------- whole receptions

  /** Lengths at which the parser is called while a stream arrives. */
  predicate Growing(cuts: seq<nat>, from: nat, size: nat) {
    && (forall i :: 0 <= i < |cuts| ==> from <= cuts[i] <= size)
    && (forall i, j :: 0 <= i < j < |cuts| ==> cuts[i] <= cuts[j])
  }

  /** Calls on growing prefixes, each given the length of the one before, until one
      does not ask for more. */
  function Receive(kind: Kind, s: seq<Byte>, max: nat, cuts: seq<nat>, lastLen: nat): Parse<Message>
    requires lastLen <= |s| && Growing(cuts, lastLen, |s|)
    decreases |cuts|
  {
    if cuts == [] then Partial
    else
      var r := Phr(kind, s[..cuts[0]], max, lastLen);
      if r.Partial? then Receive(kind, s, max, cuts[1..], cuts[0]) else r
  }

  /** Incremental parsing refines one-shot parsing, for every fragmentation: the
      reception of a stream ends in success exactly if the whole stream parses, and
      then with the same count and slices. */
  lemma {:induction false} IncrementalExact(kind: Kind, s: seq<Byte>, max: nat, cuts: seq<nat>)
    requires Growing(cuts, 0, |s|) && cuts != [] && cuts[|cuts| - 1] == |s|
    ensures Receive(kind, s, max, cuts, 0).Ok? || ParseMessage(kind, s, max).Ok?
            ==> Receive(kind, s, max, cuts, 0) == ParseMessage(kind, s, max)
  {
    hide ParseMessage;
    if ParseMessage(kind, s, max).Ok? {
      ReceiveFinds(kind, s, max, cuts, 0);
    } else if Receive(kind, s, max, cuts, 0).Ok? {
      ReceiveSound(kind, s, max, cuts, 0);
    }
  }

  lemma {:induction false} ReceiveFinds(kind: Kind, s: seq<Byte>, max: nat, cuts: seq<nat>, lastLen: nat)
    requires ParseMessage(kind, s, max).Ok? && lastLen < ParseMessage(kind, s, max).pos
    requires Growing(cuts, lastLen, |s|) && cuts != [] && cuts[|cuts| - 1] == |s|
    ensures Receive(kind, s, max, cuts, lastLen) == ParseMessage(kind, s, max)
    decreases |cuts|
  {
    hide ParseMessage, Phr;
    IncrementalStep(kind, s, max, cuts[0], lastLen);
    if cuts[0] < ParseMessage(kind, s, max).pos {
      ReceiveFinds(kind, s, max, cuts[1..], cuts[0]);
    }
  }

  lemma {:induction false} ReceiveSound(kind: Kind, s: seq<Byte>, max: nat, cuts: seq<nat>, lastLen: nat)
    requires lastLen <= |s| && Growing(cuts, lastLen, |s|)
    requires Receive(kind, s, max, cuts, lastLen).Ok?
    ensures ParseMessage(kind, s, max) == Receive(kind, s, max, cuts, lastLen)
    decreases |cuts|
  {
    hide ParseMessage;
    var r := Phr(kind, s[..cuts[0]], max, lastLen);
    if r.Partial? {
      ReceiveSound(kind, s, max, cuts[1..], cuts[0]);
    } else {
      ParseStable(kind, s[..cuts[0]], s, max);
    }
  }

  /** Rejections are right, whenever they come: a reception that was refused holds no
      beginning of a message, whatever might have followed. */
  lemma RejectionIsRight(kind: Kind, s: seq<Byte>, t: seq<Byte>, max: nat, cuts: seq<nat>)
    requires s <= t && Growing(cuts, 0, |s|) && Receive(kind, s, max, cuts, 0).Bad?
    ensures !ParseMessage(kind, t, max).Ok?
  {
    hide ParseMessage, Receive;
    if ParseMessage(kind, t, max).Ok? {
      NeverRefused(kind, s, t, max, cuts, 0);
    }
  }

  lemma {:induction false} NeverRefused(kind: Kind, s: seq<Byte>, t: seq<Byte>, max: nat, cuts: seq<nat>, lastLen: nat)
    requires s <= t && lastLen <= |s| && Growing(cuts, lastLen, |s|)
    requires ParseMessage(kind, t, max).Ok? && lastLen < ParseMessage(kind, t, max).pos
    ensures !Receive(kind, s, max, cuts, lastLen).Bad?
    decreases |cuts|
  {
    hide ParseMessage, Phr;
    if cuts != [] {
      assert s[..cuts[0]] == t[..cuts[0]];
      IncrementalStep(kind, t, max, cuts[0], lastLen);
      if cuts[0] < ParseMessage(kind, t, max).pos {
        NeverRefused(kind, s, t, max, cuts[1..], cuts[0]);
      }
    }
  }

  /** Only success is cut-independent: a request with a control byte in its method is
      refused at once, but merely awaited when it comes in two pieces. */
  lemma RejectionCanBePostponed(max: nat)
    ensures var s := [71, 1];
            && ParseMessage(RequestKind, s, max) == Bad
            && Receive(RequestKind, s, max, [1, 2], 0) == Partial
  {
    var s: seq<Byte> := [71, 1];
    assert Scan(s, 0, AtTokenEnd(SP)) == 1;
    assert s[..1] == [71];
    assert Scan([71], 0, AtTokenEnd(SP)) == 1;
    assert [1, 2][1..] == [2];
    assert s[..2] == s;
    assert FindEmptyLine(s, 2, 0) == Partial;
    assert FindEmptyLine(s, 1, 0) == Partial;
    assert FindEmptyLine(s, 0, 0) == Partial;
    assert Receive(RequestKind, s, max, [2], 1) == Partial;
  }

  // ---------------------------------------------------------------- every call, every reception

  /** Position `i` starts what the shortcut looks for: a CR without its LF, or a line
      end with an empty line behind it. */
  predicate Revealing(s: seq<Byte>, i: nat) {
    && i + 1 < |s|
    && (|| (s[i] == CR && s[i + 1] != LF)
        || (s[i] == LF && s[i + 1] == LF)
        || (s[i] == LF && s[i + 1] == CR && i + 2 < |s| && s[i + 2] == LF))
  }

  /** The first such position from `p` on, or the end. */
  function FirstRevealing(s: seq<Byte>, p: nat): (i: nat)
    requires p <= |s|
    ensures p <= i <= |s|
    ensures i < |s| ==> Revealing(s, i)
    ensures forall j :: p <= j < i ==> !Revealing(s, j)
    decreases |s| - p
  {
    if p == |s| || Revealing(s, p) then p else FirstRevealing(s, p + 1)
  }

  lemma FirstIsUnique(s: seq<Byte>, p: nat, i: nat)
    requires p <= i < |s| && Revealing(s, i) && forall j :: p <= j < i ==> !Revealing(s, j)
    ensures FirstRevealing(s, p) == i
  {
    hide Revealing;
  }

  /** Where the shortcut starts to look. */
  function Resume(lastLen: nat): (p: nat)
    ensures p <= lastLen
  {
    if lastLen < 3 then 0 else lastLen - 3
  }

  /** The search is decided by the first revealing position. */
  lemma {:induction false} SearchDecides(s: seq<Byte>, p: nat, run: nat)
    requires p <= |s| && run < 2 && (run == 1 ==> !(Break(s, p).Ok? && Break(s, p).value))
    ensures var i := FirstRevealing(s, p);
            var r := FindEmptyLine(s, p, run);
            if i == |s| then r.Partial? else if s[i] == CR then r.Bad? else r.Ok?
    decreases |s| - p
  {
    var b := Break(s, p);
    if b.Bad? {
      assert Revealing(s, p);
    } else if b.Ok? && b.value {
      var after := Break(s, b.pos);
      if after.Ok? && after.value {
        FirstIsUnique(s, p, b.pos - 1);
      } else {
        SearchDecides(s, b.pos, 1);
      }
    } else if b.Ok? {
      SearchDecides(s, p + 1, 0);
    }
  }

  /** Every call, for all bytes and all previous lengths: the full parse, unless the
      first thing revealed from three bytes before the old end on is a lone CR, which is
      refused, or there is none, and more input is awaited. */
  lemma PhrExact(kind: Kind, s: seq<Byte>, max: nat, lastLen: nat)
    requires lastLen <= |s|
    ensures var i := FirstRevealing(s, if lastLen < 3 then 0 else lastLen - 3);
            Phr(kind, s, max, lastLen) ==
              if lastLen == 0 then ParseMessage(kind, s, max)
              else if i == |s| then Partial
              else if s[i] == CR then Bad
              else ParseMessage(kind, s, max)
  {
    hide ParseMessage, FindEmptyLine, FirstRevealing;
    SearchDecides(s, Resume(lastLen), 0);
  }

  /** The shortcut also refuses what the full parse still awaits: "G / H", a CR and an X,
      with five bytes seen before. */
  lemma RefusalCanComeEarly(max: nat)
    ensures var s := [71, 32, 47, 32, 72, 13, 88];
            && ParseMessage(RequestKind, s, max) == Partial
            && Phr(RequestKind, s, max, 5) == Bad
  {
    hide Scan, FirstRevealing, Phr;
    var s: seq<Byte> := [71, 32, 47, 32, 72, 13, 88];
    ScanUnique(s, 0, AtTokenEnd(SP), 1);
    ScanUnique(s, 2, AtNonSpace, 2);
    ScanUnique(s, 2, AtPathEnd, 3);
    ScanUnique(s, 4, AtNonSpace, 4);
    assert MethodAndTarget(s, 0).Ok? && MethodAndTarget(s, 0).pos == 4;
    FirstIsUnique(s, 2, 5);
    PhrExact(RequestKind, s, max, 5);
  }

  /** The call on the first `len` bytes refuses them. */
  predicate Refuses(kind: Kind, s: seq<Byte>, max: nat, len: nat, lastLen: nat)
    requires lastLen <= len <= |s|
  {
    if lastLen == 0 then ParseMessage(kind, s[..len], max).Bad?
    else
      var i := FirstRevealing(s[..len], Resume(lastLen));
      i < len && (s[i] == CR || ParseMessage(kind, s[..len], max).Bad?)
  }

  function Before(cuts: seq<nat>, j: nat, lastLen: nat): nat
    requires j < |cuts|
  {
    if j == 0 then lastLen else cuts[j - 1]
  }

  ghost predicate SomeCallRefuses(kind: Kind, s: seq<Byte>, max: nat, cuts: seq<nat>, lastLen: nat)
    requires lastLen <= |s| && Growing(cuts, lastLen, |s|)
  {
    exists j :: 0 <= j < |cuts| && Refuses(kind, s, max, cuts[j], Before(cuts, j, lastLen))
  }

  /** Every reception, for all bytes and all lists of cuts: success if and only if the
      stream parses; otherwise refusal if and only if some call refuses. */
  lemma ReceiveExact(kind: Kind, s: seq<Byte>, max: nat, cuts: seq<nat>)
    requires Growing(cuts, 0, |s|) && cuts != [] && cuts[|cuts| - 1] == |s|
    ensures Receive(kind, s, max, cuts, 0) ==
            if ParseMessage(kind, s, max).Ok? then ParseMessage(kind, s, max)
            else if SomeCallRefuses(kind, s, max, cuts, 0) then Bad
            else Partial
  {
    hide ParseMessage, Receive, SomeCallRefuses;
    IncrementalExact(kind, s, max, cuts);
    if !ParseMessage(kind, s, max).Ok? {
      ReceiveRefuses(kind, s, max, cuts, 0);
    }
  }

  lemma {:induction false} ReceiveRefuses(kind: Kind, s: seq<Byte>, max: nat, cuts: seq<nat>, lastLen: nat)
    requires lastLen <= |s| && Growing(cuts, lastLen, |s|) && !ParseMessage(kind, s, max).Ok?
    ensures Receive(kind, s, max, cuts, lastLen) ==
            if SomeCallRefuses(kind, s, max, cuts, lastLen) then Bad else Partial
    decreases |cuts|
  {
    hide ParseMessage, Phr, FirstRevealing, Refuses;
    if cuts != [] {
      CallRefuses(kind, s, max, cuts[0], lastLen);
      var more := cuts[1..];
      ReceiveRefuses(kind, s, max, more, cuts[0]);
      if Refuses(kind, s, max, cuts[0], lastLen) {
        assert Refuses(kind, s, max, cuts[0], Before(cuts, 0, lastLen));
      } else {
        forall j | 0 < j < |cuts|
          ensures Refuses(kind, s, max, cuts[j], Before(cuts, j, lastLen)) <==>
                  Refuses(kind, s, max, more[j - 1], Before(more, j - 1, cuts[0]))
        {
        }
        forall j | 0 <= j < |more|
          ensures Refuses(kind, s, max, more[j], Before(more, j, cuts[0])) <==>
                  Refuses(kind, s, max, cuts[j + 1], Before(cuts, j + 1, lastLen))
        {
        }
      }
    }
  }

  lemma CallRefuses(kind: Kind, s: seq<Byte>, max: nat, len: nat, lastLen: nat)
    requires lastLen <= len <= |s| && !ParseMessage(kind, s, max).Ok?
    ensures Phr(kind, s[..len], max, lastLen) == if Refuses(kind, s, max, len, lastLen) then Bad else Partial
  {
    hide ParseMessage, Phr, FirstRevealing;
    ParseStable(kind, s[..len], s, max);
    PhrExact(kind, s[..len], max, lastLen);
  }

  /** A call that asked for more may be left out: what a later call accepts is accepted
      with the earlier length as well. */
  lemma EarlierLengthAccepts(kind: Kind, s: seq<Byte>, t: seq<Byte>, max: nat, lastLen: nat)
    requires lastLen <= |s| && s <= t
    requires Phr(kind, s, max, lastLen).Partial? && Phr(kind, t, max, |s|).Ok?
    ensures Phr(kind, t, max, lastLen) == Phr(kind, t, max, |s|) == ParseMessage(kind, t, max)
  {
    hide ParseMessage, Phr, FirstRevealing;
    PhrExact(kind, t, max, |s|);
    PhrExact(kind, t, max, lastLen);
    PhrExact(kind, s, max, lastLen);
    ParseStable(kind, s, t, max);
    assert s == t[..|s|];
    if lastLen != 0 {
      if ParseMessage(kind, s, max).Ok? {
        NothingBefore(s, t, lastLen);
      } else {
        if ParseMessage(kind, t, max).pos <= |s| {
          PrefixDecides(kind, t, max, |s|);
        }
        ShortcutTransparent(kind, t, max, lastLen);
      }
    }
  }

  lemma {:induction false} FirstSkips(s: seq<Byte>, p: nat, q: nat)
    requires p <= q <= |s| && forall j :: p <= j < q ==> !Revealing(s, j)
    ensures FirstRevealing(s, p) == FirstRevealing(s, q)
    decreases q - p
  {
    hide Revealing;
    if p < q {
      FirstSkips(s, p + 1, q);
    }
  }

  /** A search that found nothing in `s` may be resumed at its end. */
  lemma NothingBefore(s: seq<Byte>, t: seq<Byte>, lastLen: nat)
    requires lastLen <= |s| && s <= t && FirstRevealing(s, Resume(lastLen)) == |s|
    ensures FirstRevealing(t, Resume(lastLen)) == FirstRevealing(t, Resume(|s|))
  {
    hide FirstRevealing;
    forall j | Resume(lastLen) <= j < Resume(|s|)
      ensures !Revealing(t, j)
    {
      assert !Revealing(s, j);
    }
    FirstSkips(t, Resume(lastLen), Resume(|s|));
  }

  /** What a search finds in `s` it finds in every extension. */
  lemma FirstStays(s: seq<Byte>, t: seq<Byte>, p: nat)
    requires p <= |s| && s <= t && FirstRevealing(s, p) < |s|
    ensures FirstRevealing(t, p) == FirstRevealing(s, p)
  {
    hide FirstRevealing;
    var i := FirstRevealing(s, p);
    forall j | p <= j < i
      ensures !Revealing(t, j)
    {
      assert !Revealing(s, j);
    }
    FirstIsUnique(t, p, i);
  }
}
