/** Messages as text, and the proof that the parser reads back what they say. */
module HttpText {
  import opened Bytes
  import opened Wrappers
  import opened HttpSyntax

  /** A header by content. */
  datatype Field = Field(name: seq<Byte>, value: seq<Byte>)

  predicate TokenText(s: seq<Byte>) {
    s != [] && forall i :: 0 <= i < |s| ==> TokenChar(s[i])
  }

  predicate PlainText(s: seq<Byte>) {
    forall i :: 0 <= i < |s| ==> !Control(s[i]) || s[i] == HT
  }

  predicate ValueText(s: seq<Byte>) {
    && PlainText(s)
    && (s != [] ==> !Blank(s[0]) && !Blank(s[|s| - 1]))
  }

  predicate TargetText(s: seq<Byte>) {
    s != [] && forall i :: 0 <= i < |s| ==> !Control(s[i]) && s[i] != SP
  }

  predicate GoodField(f: Field) {
    TokenText(f.name) && ValueText(f.value)
  }

  function FieldLine(f: Field): seq<Byte> {
    f.name + [COLON, SP] + f.value + CRLF
  }

  function FieldLines(fs: seq<Field>): seq<Byte> {
    if fs == [] then [] else FieldLine(fs[0]) + FieldLines(fs[1..])
  }

  /** `t` stands in `s` at `p`. */
  predicate At(s: seq<Byte>, p: nat, t: seq<Byte>) {
    p + |t| <= |s| && s[p..p + |t|] == t
  }

  lemma AtSplit(s: seq<Byte>, p: nat, a: seq<Byte>, b: seq<Byte>)
    requires At(s, p, a + b)
    ensures At(s, p, a) && At(s, p + |a|, b)
  {
    assert s[p..p + |a|] == s[p..p + |a + b|][..|a|] == a;
    assert s[p + |a|..p + |a| + |b|] == s[p..p + |a + b|][|a|..] == b;
  }

  lemma AtIndex(s: seq<Byte>, p: nat, t: seq<Byte>, i: nat)
    requires At(s, p, t) && p <= i < p + |t|
    ensures i < |s| && s[i] == t[i - p]
  {
    assert s[i] == s[p..p + |t|][i - p];
  }

  lemma AtBreak(s: seq<Byte>, p: nat)
    requires At(s, p, CRLF)
    ensures Break(s, p) == Ok(p + 2, true) && s[p] == CR
  {
    AtIndex(s, p, CRLF, p);
    AtIndex(s, p, CRLF, p + 1);
  }

  /** A scan passes over a text with no stopping byte. */
  lemma ScanText(s: seq<Byte>, p: nat, t: seq<Byte>, k: Stop)
    requires At(s, p, t) && p + |t| < |s| && Stops(k, s[p + |t|])
    requires forall i :: 0 <= i < |t| ==> !Stops(k, t[i])
    ensures Scan(s, p, k) == p + |t|
  {
    forall i | p <= i < p + |t|
      ensures !Stops(k, s[i])
    {
      AtIndex(s, p, t, i);
    }
    ScanUnique(s, p, k, p + |t|);
  }

  lemma ScanToken(s: seq<Byte>, p: nat, t: seq<Byte>, next: Byte)
    requires At(s, p, t) && TokenText(t) && (next == COLON || next == SP)
    requires p + |t| < |s| && s[p + |t|] == next
    ensures Scan(s, p, AtTokenEnd(next)) == p + |t|
  {
    ScanText(s, p, t, AtTokenEnd(next));
  }

  lemma LineText(s: seq<Byte>, p: nat, t: seq<Byte>)
    requires At(s, p, t) && At(s, p + |t|, CRLF) && PlainText(t)
    ensures Line(s, p) == Ok(p + |t| + 2, Slice(p, |t|))
  {
    AtBreak(s, p + |t|);
    ScanText(s, p, t, AtLineControl);
  }

  /** The slices of a header line that starts at `p`. */
  function FieldSlices(p: nat, f: Field): Header {
    Header(Some(Slice(p, |f.name|)), Slice(p + |f.name| + 2, |f.value|))
  }

  function FieldsSlices(p: nat, fs: seq<Field>): seq<Header>
    decreases |fs|
  {
    if fs == [] then [] else [FieldSlices(p, fs[0])] + FieldsSlices(p + |FieldLine(fs[0])|, fs[1..])
  }

  lemma FieldParts(s: seq<Byte>, p: nat, f: Field)
    requires At(s, p, FieldLine(f))
    ensures At(s, p, f.name)
    ensures var q := p + |f.name|;
            && q + 1 < |s| && s[q] == COLON && s[q + 1] == SP
            && At(s, q + 2, f.value) && At(s, q + 2 + |f.value|, CRLF)
    ensures |FieldLine(f)| == |f.name| + |f.value| + 4
  {
    var q := p + |f.name|;
    AtSplit(s, p, f.name + [COLON, SP] + f.value, CRLF);
    AtSplit(s, p, f.name + [COLON, SP], f.value);
    AtSplit(s, p, f.name, [COLON, SP]);
    AtIndex(s, q, [COLON, SP], q);
    AtIndex(s, q, [COLON, SP], q + 1);
  }

  lemma TokenCharPlain(b: Byte)
    requires TokenChar(b)
    ensures b != CR && b != LF && !Blank(b) && b != COLON
  {
  }

  lemma FieldNameText(s: seq<Byte>, p: nat, f: Field, first: bool)
    requires At(s, p, FieldLine(f)) && GoodField(f)
    ensures p < |s| && HeaderName(s, p, first) == Ok(p + |f.name| + 2, Some(Slice(p, |f.name|)))
    ensures Break(s, p) == Ok(p, false)
  {
    hide Scan, At, FieldLine, TokenChar, PlainText;
    FieldParts(s, p, f);
    AtIndex(s, p, f.name, p);
    assert TokenChar(s[p]);
    TokenCharPlain(s[p]);
    var q := p + |f.name|;
    ScanToken(s, p, f.name, COLON);
    AtBreak(s, q + 2 + |f.value|);
    if f.value != [] {
      AtIndex(s, q + 2, f.value, q + 2);
    }
    assert !Blank(s[q + 2]);
    ScanUnique(s, q + 1, AtNonBlank, q + 2);
  }

  /** One printed header line reads back as its field. */
  lemma FieldLineText(s: seq<Byte>, p: nat, f: Field, first: bool)
    requires At(s, p, FieldLine(f)) && GoodField(f)
    ensures p < |s| && HeaderLine(s, p, first) == Ok(p + |FieldLine(f)|, FieldSlices(p, f))
    ensures Break(s, p) == Ok(p, false)
  {
    hide HeaderName, Line, Trimmed, At, FieldLine, TokenText, PlainText, Break;
    FieldNameText(s, p, f, first);
    FieldParts(s, p, f);
    var v := p + |f.name| + 2;
    LineText(s, v, f.value);
    TrimText(s, v, f.value);
  }

  lemma TrimText(s: seq<Byte>, v: nat, t: seq<Byte>)
    requires At(s, v, t) && ValueText(t)
    ensures v + |t| <= |s| && Trimmed(s, v, v + |t|) == Slice(v, |t|)
  {
    if t != [] {
      AtIndex(s, v, t, v + |t| - 1);
    }
  }

  lemma {:induction false} FieldLinesText(s: seq<Byte>, p: nat, fs: seq<Field>, n: nat, max: nat)
    requires At(s, p, FieldLines(fs) + CRLF) && n + |fs| <= max
    requires forall i :: 0 <= i < |fs| ==> GoodField(fs[i])
    ensures Headers(s, p, n, max) == Ok(p + |FieldLines(fs)| + 2, FieldsSlices(p, fs))
    decreases |fs|
  {
    hide HeaderLine, FieldLine, FieldSlices, GoodField, At;
    AtSplit(s, p, FieldLines(fs), CRLF);
    if fs == [] {
      AtBreak(s, p);
    } else {
      var line := FieldLine(fs[0]);
      FieldLinesCons(fs);
      AtSplit(s, p, line, FieldLines(fs[1..]) + CRLF);
      FieldLineText(s, p, fs[0], n == 0);
      FieldLinesText(s, p + |line|, fs[1..], n + 1, max);
    }
  }

  lemma FieldLinesCons(fs: seq<Field>)
    requires fs != []
    ensures FieldLines(fs) + CRLF == FieldLine(fs[0]) + (FieldLines(fs[1..]) + CRLF)
  {
    hide FieldLine;
  }

  /** The parsed headers say what was printed. */
  ghost predicate Says(s: seq<Byte>, hs: seq<Header>, fs: seq<Field>) {
    && |hs| == |fs|
    && forall i :: 0 <= i < |fs| ==> Shows(s, hs[i], fs[i])
  }

  ghost predicate Shows(s: seq<Byte>, h: Header, f: Field) {
    && h.name.Some? && h.name.value.End() <= |s| && Text(s, h.name.value) == f.name
    && h.value.End() <= |s| && Text(s, h.value) == f.value
  }

  lemma {:induction false} SlicesSay(s: seq<Byte>, p: nat, fs: seq<Field>)
    requires At(s, p, FieldLines(fs))
    ensures Says(s, FieldsSlices(p, fs), fs)
    decreases |fs|
  {
    hide FieldLine;
    if fs != [] {
      AtSplit(s, p, FieldLine(fs[0]), FieldLines(fs[1..]));
      FieldParts(s, p, fs[0]);
      var q := p + |FieldLine(fs[0])|;
      SlicesSay(s, q, fs[1..]);
      var hs := FieldsSlices(p, fs);
      assert Shows(s, hs[0], fs[0]);
      forall i | 0 <= i < |fs|
        ensures Shows(s, hs[i], fs[i])
      {
        if i > 0 {
          assert hs[i] == FieldsSlices(q, fs[1..])[i - 1] && fs[i] == fs[1..][i - 1];
        }
      }
    }
  }

  // ---------------------------------------------------------------- responses

  /** "HTTP/1.0 " */
  const STATUS_PREFIX: seq<Byte> := VERSION_PREFIX + [48, SP]

  /** Decimal digits, without leading zeros. */
  function Decimal(n: nat): (t: seq<Byte>)
    ensures t != [] && forall i :: 0 <= i < |t| ==> Digit(t[i])
  {
    if n < 10 then [48 + n] else Decimal(n / 10) + [48 + n % 10]
  }

  /** What "%d" prints. */
  function Number(n: int): (t: seq<Byte>)
    ensures t != [] && PlainText(t) && t[0] != SP
  {
    if n < 0 then [45] + Decimal(-n) else Decimal(n)
  }

  /** A number shows as three digits exactly if it has three. */
  lemma NumberDigits(n: int)
    ensures 100 <= n < 1000 ==> Number(n) == [48 + n / 100, 48 + n / 10 % 10, 48 + n % 10]
    ensures n < 0 ==> Number(n)[0] == 45
    ensures 0 <= n < 100 ==> |Number(n)| < 3
    ensures 1000 <= n ==> |Number(n)| > 3
    ensures 0 <= n ==> forall i :: 0 <= i < |Number(n)| ==> Digit(Number(n)[i])
  {
    if 10 <= n {
      assert Decimal(n) == Decimal(n / 10) + [48 + n % 10];
      if 100 <= n {
        assert n / 10 / 10 == n / 100;
        assert Decimal(n / 10) == Decimal(n / 100) + [48 + n / 10 % 10];
        if 1000 <= n {
          assert Decimal(n / 100) == Decimal(n / 100 / 10) + [48 + n / 100 % 10];
        }
      }
    }
  }

  function StatusLineText(status: int, reason: seq<Byte>): seq<Byte> {
    STATUS_PREFIX + Number(status) + [SP] + reason + CRLF
  }

  lemma StatusPartsAt(s: seq<Byte>, status: int, reason: seq<Byte>)
    requires At(s, 0, StatusLineText(status, reason))
    ensures At(s, 0, STATUS_PREFIX) && At(s, 9, Number(status) + [SP] + reason)
    ensures var e := 9 + |Number(status)|;
            At(s, 9, Number(status)) && At(s, e, [SP] + reason) && At(s, e + 1, reason) && At(s, e + 1 + |reason|, CRLF)
  {
    var d := Number(status);
    assert StatusLineText(status, reason) == STATUS_PREFIX + (d + [SP] + reason) + CRLF;
    AtSplit(s, 0, STATUS_PREFIX + (d + [SP] + reason), CRLF);
    AtSplit(s, 0, STATUS_PREFIX, d + [SP] + reason);
    assert d + [SP] + reason == d + ([SP] + reason);
    AtSplit(s, 9, d, [SP] + reason);
    AtSplit(s, 9 + |d|, [SP], reason);
  }

  /** The version is read, and the status is looked for right behind the space. */
  lemma StatusHeadReads(s: seq<Byte>, status: int, reason: seq<Byte>)
    requires At(s, 0, StatusLineText(status, reason))
    ensures StatusHead(s) == Ok(9, 0) && |s| - 9 >= 4
  {
    hide Scan, Number;
    StatusPartsAt(s, status, reason);
    assert s[0..7] == s[0..9][..7] == VERSION_PREFIX;
    AtIndex(s, 0, STATUS_PREFIX, 7);
    AtIndex(s, 0, STATUS_PREFIX, 8);
    AtIndex(s, 9, Number(status), 9);
    ScanUnique(s, 9, AtNonSpace, 9);
  }

  lemma StatusReads(s: seq<Byte>, status: int)
    requires 100 <= status < 1000 && At(s, 9, Number(status)) && |s| >= 13
    ensures Status(s, 9) == Ok(12, status)
  {
    NumberDigits(status);
    var d := Number(status);
    hide Number, At;
    AtIndex(s, 9, d, 9);
    AtIndex(s, 9, d, 10);
    AtIndex(s, 9, d, 11);
    Recompose(status);
  }

  lemma Recompose(n: nat)
    requires n < 1000
    ensures 100 * (n / 100) + 10 * (n / 10 % 10) + n % 10 == n && n / 100 <= 9
  {
  }

  lemma StatusLineReads(s: seq<Byte>, status: int, reason: seq<Byte>)
    requires 100 <= status < 1000 && PlainText(reason) && (reason != [] ==> reason[0] != SP)
    requires At(s, 0, StatusLineText(status, reason))
    ensures ParseStatusLine(s) == Ok(|StatusLineText(status, reason)|, StatusLine(0, status, Slice(13, |reason|)))
  {
    hide Scan, Line, StatusHead, Reason, Number, At, PlainText;
    StatusHeadReads(s, status, reason);
    StatusPartsAt(s, status, reason);
    NumberDigits(status);
    StatusReads(s, status);
    hide Status;
    ReasonReads(s, reason);
  }

  /** A status that is not of three digits makes the line unreadable. */
  lemma StatusLineRefused(s: seq<Byte>, status: int, reason: seq<Byte>)
    requires !(100 <= status < 1000) && PlainText(reason)
    requires At(s, 0, StatusLineText(status, reason))
    ensures ParseStatusLine(s) == Bad
  {
    hide Scan, Line, StatusHead, Number, At;
    StatusHeadReads(s, status, reason);
    StatusPartsAt(s, status, reason);
    NumberDigits(status);
    var d := Number(status);
    AtIndex(s, 9, d, 9);
    if 0 <= status < 100 {
      AtIndex(s, 9 + |d|, [SP] + reason, 9 + |d|);
    } else if 1000 <= status {
      AtIndex(s, 9, d, 12);
      DigitsLeft(s, d, reason);
    }
  }

  /** Digits behind the third are garbage behind the status. */
  lemma DigitsLeft(s: seq<Byte>, d: seq<Byte>, reason: seq<Byte>)
    requires |d| > 3 && PlainText(d) && PlainText(reason) && At(s, 9, d + [SP] + reason)
    requires At(s, 9 + |d| + 1 + |reason|, CRLF) && s[12] != SP
    ensures Reason(s, 12) == Bad
  {
    hide Line;
    var rest := d[3..] + [SP] + reason;
    assert d + [SP] + reason == d[..3] + rest;
    AtSplit(s, 9, d[..3], rest);
    LineText(s, 12, rest);
  }

  lemma ReasonReads(s: seq<Byte>, reason: seq<Byte>)
    requires PlainText(reason) && (reason != [] ==> reason[0] != SP)
    requires At(s, 12, [SP] + reason) && At(s, 13 + |reason|, CRLF)
    ensures Reason(s, 12) == Ok(|reason| + 15, Slice(13, |reason|))
  {
    hide Line;
    var t := [SP] + reason;
    AtIndex(s, 12, t, 12);
    LineText(s, 12, t);
    AtBreak(s, 13 + |reason|);
    if reason != [] {
      AtIndex(s, 12, t, 13);
    }
    assert s[13] != SP;
    assert ScanWithin(s, 12, AtNonSpace, 13 + |reason|) == ScanWithin(s, 13, AtNonSpace, 13 + |reason|) == 13;
  }

  function ResponseText(status: int, reason: seq<Byte>, fs: seq<Field>): seq<Byte> {
    StatusLineText(status, reason) + (FieldLines(fs) + CRLF)
  }

  lemma ResponseRefused(status: int, reason: seq<Byte>, fs: seq<Field>, max: nat, extra: seq<Byte>)
    requires !(100 <= status < 1000) && PlainText(reason)
    ensures ParseMessage(ResponseKind, ResponseText(status, reason, fs) + extra, max) == Bad
  {
    hide ParseStatusLine, Headers, FieldLines, Number;
    var line, tail := StatusLineText(status, reason), FieldLines(fs) + CRLF;
    var s := ResponseText(status, reason, fs) + extra;
    assert At(s, 0, line + tail);
    AtSplit(s, 0, line, tail);
    StatusLineRefused(s, status, reason);
  }

  /** Response print/parse round trip, whatever follows the header section. */
  lemma {:induction false} ResponseRoundTrip(status: int, reason: seq<Byte>, fs: seq<Field>, max: nat, extra: seq<Byte>)
    requires 100 <= status < 1000 && PlainText(reason) && (reason != [] ==> reason[0] != SP)
    requires |fs| <= max && forall i :: 0 <= i < |fs| ==> GoodField(fs[i])
    ensures var text := ResponseText(status, reason, fs);
            var r := ParseMessage(ResponseKind, text + extra, max);
            && r.Ok? && r.pos == |text|
            && r.value.Response? && r.value.minor == 0 && r.value.status == status
            && r.value.reason.End() <= |text + extra| && Text(text + extra, r.value.reason) == reason
            && Says(text + extra, r.value.headers, fs)
  {
    hide ParseStatusLine, Headers, Says, FieldLines, FieldsSlices, Number, StatusLineText;
    NumberDigits(status);
    var line, tail := StatusLineText(status, reason), FieldLines(fs) + CRLF;
    var s := ResponseText(status, reason, fs) + extra;
    assert At(s, 0, line + tail);
    AtSplit(s, 0, line, tail);
    StatusLineReads(s, status, reason);
    StatusPartsAt(s, status, reason);
    FieldLinesText(s, |line|, fs, 0, max);
    AtSplit(s, |line|, FieldLines(fs), CRLF);
    SlicesSay(s, |line|, fs);
  }

  // ---------------------------------------------------------------- requests

  /** The text of a request, byte for byte. */
  lemma RequestTextIs(m: seq<Byte>, path: seq<Byte>, minor: nat, fs: seq<Field>)
    requires minor <= 9
    ensures RequestText(m, path, minor, fs) ==
            m + Ascii(" ") + path + Ascii(" ") + (Ascii("HTTP/1.") + [Ascii("0123456789")[minor]]) + Ascii("\r\n")
            + (FieldLines(fs) + Ascii("\r\n"))
  {
    hide FieldLines;
    CodesAreAscii();
    VersionTextIs(minor);
    hide Ascii;
  }

  lemma VersionTextIs(minor: nat)
    requires minor <= 9
    ensures Ascii("HTTP/1.") == VERSION_PREFIX && Ascii("0123456789")[minor] == 48 + minor
  {
    assert "0123456789"[minor] as int == 48 + minor;
  }

  lemma FieldLineIs(f: Field)
    ensures FieldLine(f) == f.name + Ascii(": ") + f.value + Ascii("\r\n")
  {
    CodesAreAscii();
    hide Ascii;
  }

  /** More fields than the limit are refused. */
  lemma {:induction false} TooManyFields(s: seq<Byte>, p: nat, fs: seq<Field>, n: nat, max: nat)
    requires At(s, p, FieldLines(fs) + CRLF) && n <= max < n + |fs|
    requires forall i :: 0 <= i < |fs| ==> GoodField(fs[i])
    ensures Headers(s, p, n, max) == Bad
    decreases |fs|
  {
    hide HeaderLine, FieldLine, FieldSlices, GoodField, At;
    var line := FieldLine(fs[0]);
    FieldLinesCons(fs);
    AtSplit(s, p, line, FieldLines(fs[1..]) + CRLF);
    FieldLineText(s, p, fs[0], n == 0);
    if n < max {
      TooManyFields(s, p + |line|, fs[1..], n + 1, max);
    }
  }

  function RequestLineText(m: seq<Byte>, path: seq<Byte>, minor: nat): seq<Byte>
    requires minor <= 9
  {
    m + [SP] + path + [SP] + (VERSION_PREFIX + [48 + minor]) + CRLF
  }

  function RequestText(m: seq<Byte>, path: seq<Byte>, minor: nat, fs: seq<Field>): seq<Byte>
    requires minor <= 9
  {
    RequestLineText(m, path, minor) + (FieldLines(fs) + CRLF)
  }

  lemma RequestPartsAt(s: seq<Byte>, p: nat, m: seq<Byte>, path: seq<Byte>, minor: nat)
    requires minor <= 9 && At(s, p, RequestLineText(m, path, minor))
    ensures At(s, p, m) && At(s, p + |m|, [SP])
    ensures At(s, p + |m| + 1, path) && At(s, p + |m| + 1 + |path|, [SP])
    ensures At(s, p + |m| + |path| + 2, VERSION_PREFIX + [48 + minor]) && At(s, p + |m| + |path| + 10, CRLF)
    ensures p + |m| + |path| + 12 <= |s|
  {
    var v := VERSION_PREFIX + [48 + minor];
    AtSplit(s, p, m + [SP] + path + [SP] + v, CRLF);
    AtSplit(s, p, m + [SP] + path + [SP], v);
    AtSplit(s, p, m + [SP] + path, [SP]);
    AtSplit(s, p, m + [SP], path);
    AtSplit(s, p, m, [SP]);
  }

  lemma TokenReads(s: seq<Byte>, p: nat, t: seq<Byte>)
    requires At(s, p, t) && TokenText(t) && At(s, p + |t|, [SP])
    ensures Token(s, p, SP) == Ok(p + |t|, Slice(p, |t|))
  {
    hide Scan;
    AtIndex(s, p + |t|, [SP], p + |t|);
    ScanToken(s, p, t, SP);
  }

  lemma TargetReads(s: seq<Byte>, p: nat, t: seq<Byte>)
    requires At(s, p, t) && TargetText(t) && At(s, p + |t|, [SP])
    ensures Target(s, p) == Ok(p + |t|, Slice(p, |t|))
  {
    hide Scan;
    AtIndex(s, p + |t|, [SP], p + |t|);
    ScanText(s, p, t, AtPathEnd);
  }

  lemma NoMoreSpaces(s: seq<Byte>, p: nat)
    requires p < |s| && s[p] != SP
    ensures SkipSpaces(s, p) == Ok(p, ())
  {
    hide Scan;
    ScanUnique(s, p, AtNonSpace, p);
  }

  lemma MethodAndTargetReads(s: seq<Byte>, p: nat, m: seq<Byte>, path: seq<Byte>, minor: nat)
    requires minor <= 9 && TokenText(m) && TargetText(path)
    requires At(s, p, RequestLineText(m, path, minor))
    ensures p < |s| && TokenChar(s[p])
    ensures MethodAndTarget(s, p) == Ok(p + |m| + |path| + 2, (Slice(p, |m|), Slice(p + |m| + 1, |path|)))
  {
    hide Token, Target, SkipSpaces, At, RequestLineText, TokenChar;
    RequestPartsAt(s, p, m, path, minor);
    AtIndex(s, p, m, p);
    TokenReads(s, p, m);
    var q := p + |m| + 1;
    AtIndex(s, q, path, q);
    NoMoreSpaces(s, q);
    TargetReads(s, q, path);
    var e := q + |path| + 1;
    AtIndex(s, e, VERSION_PREFIX + [48 + minor], e);
    NoMoreSpaces(s, e);
  }

  lemma RequestLineReads(s: seq<Byte>, p: nat, m: seq<Byte>, path: seq<Byte>, minor: nat)
    requires minor <= 9 && TokenText(m) && TargetText(path)
    requires At(s, p, RequestLineText(m, path, minor))
    ensures p < |s| && TokenChar(s[p])
    ensures RequestLine(s, p) ==
            Ok(p + |RequestLineText(m, path, minor)|, StartLine(Slice(p, |m|), Slice(p + |m| + 1, |path|), minor))
  {
    hide MethodAndTarget, TokenChar, At;
    MethodAndTargetReads(s, p, m, path, minor);
    RequestPartsAt(s, p, m, path, minor);
    var v := p + |m| + |path| + 2;
    VersionReads(s, v, minor);
    AtBreak(s, v + 8);
  }

  lemma VersionReads(s: seq<Byte>, v: nat, minor: nat)
    requires minor <= 9 && At(s, v, VERSION_PREFIX + [48 + minor]) && v + 8 < |s|
    ensures Version(s, v) == Ok(v + 8, minor)
  {
    AtSplit(s, v, VERSION_PREFIX, [48 + minor]);
    AtIndex(s, v + 7, [48 + minor], v + 7);
  }

  /** What the parser skips in front of a request: nothing, or one line break. */
  predicate Skippable(lead: seq<Byte>) {
    lead == [] || lead == [LF] || lead == CRLF
  }

  lemma LeadSkipped(lead: seq<Byte>, s: seq<Byte>)
    requires Skippable(lead) && lead < s && TokenChar(s[|lead|])
    ensures Break(s, 0) == Ok(|lead|, lead != [])
  {
    TokenCharPlain(s[|lead|]);
  }

  /** The slices of a request that stands at `p`. */
  function RequestSlices(p: nat, m: seq<Byte>, path: seq<Byte>, minor: nat, fs: seq<Field>): Message
    requires minor <= 9
  {
    Request(Slice(p, |m|), Slice(p + |m| + 1, |path|), minor,
            FieldsSlices(p + |RequestLineText(m, path, minor)|, fs))
  }

  lemma RequestReads(s: seq<Byte>, p: nat, m: seq<Byte>, path: seq<Byte>, minor: nat, fs: seq<Field>, max: nat)
    requires minor <= 9 && TokenText(m) && TargetText(path)
    requires |fs| <= max && forall i :: 0 <= i < |fs| ==> GoodField(fs[i])
    requires At(s, p, RequestText(m, path, minor, fs))
    requires Break(s, 0).Ok? && Break(s, 0).pos == p
    ensures ParseRequest(s, max) ==
            Ok(p + |RequestText(m, path, minor, fs)|, RequestSlices(p, m, path, minor, fs))
  {
    hide RequestLine, Headers, FieldLines, FieldsSlices, Break, TokenChar, GoodField;
    hide RequestLineText, TargetText, TokenText, At;
    var line, tail := RequestLineText(m, path, minor), FieldLines(fs) + CRLF;
    AtSplit(s, p, line, tail);
    RequestLineReads(s, p, m, path, minor);
    FieldLinesText(s, p + |line|, fs, 0, max);
  }

  lemma RequestSays(s: seq<Byte>, p: nat, m: seq<Byte>, path: seq<Byte>, minor: nat, fs: seq<Field>)
    requires minor <= 9 && At(s, p, RequestText(m, path, minor, fs))
    ensures SaysRequest(s, RequestSlices(p, m, path, minor, fs), m, path, minor, fs)
  {
    hide Says, FieldLines, FieldsSlices, RequestLineText, At;
    var line, tail := RequestLineText(m, path, minor), FieldLines(fs) + CRLF;
    AtSplit(s, p, line, tail);
    RequestPartsAt(s, p, m, path, minor);
    TextAt(s, p, m);
    TextAt(s, p + |m| + 1, path);
    AtSplit(s, p + |line|, FieldLines(fs), CRLF);
    SlicesSay(s, p + |line|, fs);
  }

  lemma TextAt(s: seq<Byte>, p: nat, t: seq<Byte>)
    requires At(s, p, t)
    ensures p + |t| <= |s| && Text(s, Slice(p, |t|)) == t
  {
  }

  /** A printed request parses to its parts, whatever follows it, also behind a line
      break. */
  lemma {:induction false} RequestRoundTrip(
    lead: seq<Byte>, m: seq<Byte>, path: seq<Byte>, minor: nat, fs: seq<Field>, max: nat, extra: seq<Byte>)
    requires Skippable(lead) && minor <= 9 && TokenText(m) && TargetText(path)
    requires |fs| <= max && forall i :: 0 <= i < |fs| ==> GoodField(fs[i])
    ensures var s := lead + RequestText(m, path, minor, fs) + extra;
            var r := ParseMessage(RequestKind, s, max);
            && r.Ok? && r.pos == |lead| + |RequestText(m, path, minor, fs)|
            && SaysRequest(s, r.value, m, path, minor, fs)
  {
    hide ParseRequest, RequestSlices, SaysRequest, Break, TokenChar, GoodField, FieldLines;
    var s := lead + RequestText(m, path, minor, fs) + extra;
    assert At(s, |lead|, RequestText(m, path, minor, fs));
    assert s[|lead|] == m[0];
    LeadSkipped(lead, s);
    RequestReads(s, |lead|, m, path, minor, fs, max);
    RequestSays(s, |lead|, m, path, minor, fs);
  }

  /** A parsed request says what was sent. */
  ghost predicate SaysRequest(
    s: seq<Byte>, r: Message, m: seq<Byte>, path: seq<Byte>, minor: nat, fs: seq<Field>) {
    && r.Request? && r.minor == minor
    && r.method_.End() <= |s| && Text(s, r.method_) == m
    && r.path.End() <= |s| && Text(s, r.path) == path
    && Says(s, r.headers, fs)
  }

  lemma TooManyRefused(m: seq<Byte>, path: seq<Byte>, minor: nat, fs: seq<Field>, max: nat, extra: seq<Byte>)
    requires minor <= 9 && TokenText(m) && TargetText(path)
    requires |fs| > max && forall i :: 0 <= i < |fs| ==> GoodField(fs[i])
    ensures ParseMessage(RequestKind, RequestText(m, path, minor, fs) + extra, max) == Bad
  {
    hide RequestLine, Headers, FieldLines, Break, TokenChar, GoodField, RequestLineText;
    var line, tail := RequestLineText(m, path, minor), FieldLines(fs) + CRLF;
    var s := RequestText(m, path, minor, fs) + extra;
    assert At(s, 0, line + tail);
    AtSplit(s, 0, line, tail);
    RequestLineReads(s, 0, m, path, minor);
    LeadSkipped([], s);
    TooManyFields(s, |line|, fs, 0, max);
  }
}
