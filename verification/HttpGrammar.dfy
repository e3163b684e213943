/** The exact language of the parser: requests and responses described by the bytes they
    consist of, without scanning, and the proof that a parse succeeds with a given result
    exactly on these descriptions. */
module HttpGrammar {
  import opened Bytes
  import opened Wrappers
  import opened HttpSyntax
  import opened HttpText

  // ---------------------------------------------------------------- characters

  /** Section 3.2.6 of RFC 7230: any visible ASCII character except delimiters. */
  predicate IsToken(b: Byte) {
    33 <= b <= 126 && b !in Ascii("\"(),/:;<=>?@[\\]{}")
  }

  predicate IsBlank(b: Byte) {
    b in Ascii(" \t")
  }

  /** Anything but control characters; a tab is allowed. */
  predicate IsText(b: Byte) {
    b == 9 || 32 <= b < 127 || 128 <= b
  }

  /** Anything but control characters and space. */
  predicate IsTarget(b: Byte) {
    33 <= b < 127 || 128 <= b
  }

  lemma Delimiters()
    ensures Ascii("\"(),/:;<=>?@[\\]{}") ==
            [34, 40, 41, 44, 47, 58, 59, 60, 61, 62, 63, 64, 91, 92, 93, 123, 125]
    ensures Ascii(" \t") == [32, 9]
  {
  }

  /** The token table of the parser holds exactly the token characters of the standard. */
  lemma TokenCharExact(b: Byte)
    ensures TokenChar(b) <==> IsToken(b)
  {
    DelimiterExact(b);
  }

  lemma DelimiterExact(b: Byte)
    ensures b in Ascii("\"(),/:;<=>?@[\\]{}") <==>
            || b == 34 || b == 40 || b == 41 || b == 44 || b == 47 || 58 <= b <= 64
            || 91 <= b <= 93 || b == 123 || b == 125
  {
    Delimiters();
    var list := [34, 40, 41, 44, 47, 58, 59, 60, 61, 62, 63, 64, 91, 92, 93, 123, 125];
    if 58 <= b <= 64 {
      assert list[b - 53] == b;
    } else if 91 <= b <= 93 {
      assert list[b - 79] == b;
    }
  }

  /** The other classes the parser tests for. */
  lemma ClassesExact(b: Byte)
    ensures Blank(b) <==> IsBlank(b)
    ensures Control(b) && b != HT <==> !IsText(b)
    ensures Control(b) || b == SP <==> !IsTarget(b)
    ensures Printable(b) <==> ' ' as int <= b <= '~' as int
  {
    Delimiters();
  }

  lemma DigitExact(b: Byte, v: nat)
    requires v < 10
    ensures Digit(b) && DigitValue(b) == v <==> b == Ascii("0123456789")[v]
  {
    assert "0123456789"[v] as int == 48 + v;
  }

  /** What the round trips of printed messages ask of names, values and targets. */
  lemma TextsExact(s: seq<Byte>)
    ensures TokenText(s) <==> s != [] && forall i :: 0 <= i < |s| ==> IsToken(s[i])
    ensures TargetText(s) <==> s != [] && forall i :: 0 <= i < |s| ==> IsTarget(s[i])
    ensures ValueText(s) <==>
            && (forall i :: 0 <= i < |s| ==> IsText(s[i]))
            && (s != [] ==> !IsBlank(s[0]) && !IsBlank(s[|s| - 1]))
  {
    hide IsToken, IsText, IsTarget, IsBlank, TokenChar, Control, Blank;
    forall i | 0 <= i < |s|
      ensures TokenChar(s[i]) <==> IsToken(s[i])
      ensures Blank(s[i]) <==> IsBlank(s[i])
      ensures Control(s[i]) && s[i] != HT <==> !IsText(s[i])
      ensures Control(s[i]) || s[i] == SP <==> !IsTarget(s[i])
    {
      TokenCharExact(s[i]);
      ClassesExact(s[i]);
    }
  }

  // ---------------------------------------------------------------- stretches of bytes

  predicate Tokens(s: seq<Byte>, a: nat, z: nat) {
    a <= z <= |s| && forall i :: a <= i < z ==> IsToken(s[i])
  }

  predicate Blanks(s: seq<Byte>, a: nat, z: nat) {
    a <= z <= |s| && forall i :: a <= i < z ==> IsBlank(s[i])
  }

  predicate Texts(s: seq<Byte>, a: nat, z: nat) {
    a <= z <= |s| && forall i :: a <= i < z ==> IsText(s[i])
  }

  predicate Targets(s: seq<Byte>, a: nat, z: nat) {
    a <= z <= |s| && forall i :: a <= i < z ==> IsTarget(s[i])
  }

  predicate Spaces(s: seq<Byte>, a: nat, z: nat) {
    a <= z <= |s| && forall i :: a <= i < z ==> s[i] == ' ' as int
  }

  /** A line end fills [x, q). */
  predicate EolAt(s: seq<Byte>, x: nat, q: nat) {
    x <= q <= |s| && (s[x..q] == Ascii("\n") || s[x..q] == Ascii("\r\n"))
  }

  // ---------------------------------------------------------------- headers

  /** What stands in front of a value at `v`: a name, a colon and blanks; or nothing, on a
      line that starts with a blank and is not the first. */
  predicate NameAt(s: seq<Byte>, p: nat, name: Option<Slice>, first: bool, v: nat) {
    && v < |s|
    && match name
       case None => !first && v == p && IsBlank(s[v])
       case Some(w) =>
         && w.start == p && w.len > 0 && Tokens(s, p, w.End())
         && w.End() < v && s[w.End()] == ':' as int
         && Blanks(s, w.End() + 1, v) && !IsBlank(s[v])
  }

  /** A value at [w.start, w.End()), blanks up to the line end at `x`. */
  predicate ValueAt(s: seq<Byte>, w: Slice, x: nat, q: nat) {
    && Texts(s, w.start, w.End()) && (w.len > 0 ==> !IsBlank(s[w.End() - 1]))
    && Blanks(s, w.End(), x) && EolAt(s, x, q)
  }

  ghost predicate FieldAt(s: seq<Byte>, p: nat, h: Header, first: bool, q: nat) {
    NameAt(s, p, h.name, first, h.value.start) && exists x :: ValueAt(s, h.value, x, q)
  }

  /** Header lines from `p` on, and an empty line that ends at `q`. */
  ghost predicate FieldsAt(s: seq<Byte>, p: nat, hs: seq<Header>, first: bool, q: nat)
    decreases |hs|
  {
    if hs == [] then EolAt(s, p, q)
    else exists m :: FieldAt(s, p, hs[0], first, m) && FieldsAt(s, m, hs[1..], false, q)
  }

  lemma EolBytes(s: seq<Byte>, x: nat, q: nat)
    ensures EolAt(s, x, q) <==>
            && x < q <= |s|
            && ((q == x + 1 && s[x] == LF) || (q == x + 2 && s[x] == CR && s[x + 1] == LF))
  {
    CodesAreAscii();
    if x + 1 == q <= |s| {
      assert s[x..q] == [s[x]];
    } else if x + 2 == q <= |s| {
      assert s[x..q] == [s[x], s[x + 1]];
    }
  }

  lemma BreakExact(s: seq<Byte>, x: nat, q: nat)
    requires x <= |s|
    ensures Break(s, x) == Ok(q, true) <==> EolAt(s, x, q)
  {
    EolBytes(s, x, q);
  }

  lemma TextStretch(s: seq<Byte>, v: nat, x: nat)
    requires v <= x < |s|
    ensures Texts(s, v, x) && !IsText(s[x]) <==> Scan(s, v, AtLineControl) == x
  {
    hide Scan, IsText, Control;
    forall i | 0 <= i < |s|
      ensures Stops(AtLineControl, s[i]) <==> !IsText(s[i])
    {
      ClassesExact(s[i]);
    }
    ScanStretch(s, v, AtLineControl);
    if Texts(s, v, x) && !IsText(s[x]) {
      ScanUnique(s, v, AtLineControl, x);
    }
  }

  lemma EolIsNoText(s: seq<Byte>, x: nat, q: nat)
    requires EolAt(s, x, q)
    ensures x < |s| && !IsText(s[x]) && !IsBlank(s[x]) && s[x] != SP
  {
    EolBytes(s, x, q);
    ClassesExact(s[x]);
  }

  lemma LineExact(s: seq<Byte>, v: nat, x: nat, q: nat)
    requires v <= |s|
    ensures v <= x && Line(s, v) == Ok(q, Slice(v, x - v)) <==> Texts(s, v, x) && EolAt(s, x, q)
  {
    hide Scan, IsText, EolAt, Break;
    if Texts(s, v, x) && EolAt(s, x, q) {
      EolIsNoText(s, x, q);
      TextStretch(s, v, x);
      BreakExact(s, x, q);
    }
    if v <= x && Line(s, v) == Ok(q, Slice(v, x - v)) {
      BreakExact(s, x, q);
      TextStretch(s, v, x);
    }
  }

  lemma {:induction false} TrimUnique(s: seq<Byte>, v: nat, x: nat, w: Slice)
    requires v <= x <= |s| && w.start == v && Blanks(s, w.End(), x)
    requires w.len > 0 ==> !IsBlank(s[w.End() - 1])
    ensures Trimmed(s, v, x) == w
    decreases x
  {
    hide IsBlank;
    if w.End() < x {
      ClassesExact(s[x - 1]);
      TrimUnique(s, v, x - 1, w);
    } else if w.len > 0 {
      ClassesExact(s[x - 1]);
    }
  }

  lemma TrimHolds(s: seq<Byte>, v: nat, x: nat)
    requires v <= x <= |s|
    ensures var w := Trimmed(s, v, x);
            Blanks(s, w.End(), x) && (w.len > 0 ==> !IsBlank(s[w.End() - 1]))
  {
    hide IsBlank, Blank, Trimmed;
    forall i | 0 <= i < |s|
      ensures Blank(s[i]) <==> IsBlank(s[i])
    {
      ClassesExact(s[i]);
    }
  }

  lemma BlanksAreText(s: seq<Byte>, a: nat, z: nat)
    requires Blanks(s, a, z)
    ensures Texts(s, a, z) && a <= z <= |s|
  {
    Delimiters();
  }

  lemma ValueRead(s: seq<Byte>, w: Slice, x: nat, q: nat)
    requires ValueAt(s, w, x, q)
    ensures w.start <= x <= |s| && Line(s, w.start) == Ok(q, Slice(w.start, x - w.start))
    ensures Trimmed(s, w.start, x) == w
  {
    hide Texts, Blanks, IsBlank, EolAt, Line, Trimmed;
    BlanksAreText(s, w.End(), x);
    TextJoin(s, w.start, w.End(), x);
    LineExact(s, w.start, x, q);
    TrimUnique(s, w.start, x, w);
  }

  lemma TextJoin(s: seq<Byte>, a: nat, b: nat, c: nat)
    requires a <= b <= c <= |s|
    ensures Texts(s, a, b) && Texts(s, b, c) <==> Texts(s, a, c)
  {
    hide IsText;
  }

  lemma ValueWritten(s: seq<Byte>, v: nat)
    requires v <= |s| && Line(s, v).Ok?
    ensures ValueAt(s, Trimmed(s, v, Line(s, v).value.End()), Line(s, v).value.End(), Line(s, v).pos)
  {
    hide Texts, Blanks, IsBlank, EolAt, Line, Trimmed;
    var x := Line(s, v).value.End();
    LineExact(s, v, x, Line(s, v).pos);
    TrimHolds(s, v, x);
    TextJoin(s, v, Trimmed(s, v, x).End(), x);
  }

  /** The value part of a header line. */
  lemma ValueExact(s: seq<Byte>, v: nat, w: Slice, q: nat)
    requires v <= |s|
    ensures (exists x :: ValueAt(s, w, x, q)) && w.start == v <==>
            && Line(s, v).Ok? && Line(s, v).pos == q
            && w == Trimmed(s, v, Line(s, v).value.End())
  {
    hide ValueAt, Line, Trimmed;
    if w.start == v {
      if x :| ValueAt(s, w, x, q) {
        ValueRead(s, w, x, q);
      }
    }
    if Line(s, v).Ok? {
      ValueWritten(s, v);
    }
  }

  lemma TokenStretch(s: seq<Byte>, p: nat, z: nat, next: Byte)
    requires p <= z < |s| && !IsToken(next)
    ensures Tokens(s, p, z) && s[z] == next <==> Token(s, p, next) == Ok(z, Slice(p, z - p))
  {
    hide Scan, IsToken, TokenChar;
    forall i | 0 <= i < |s|
      ensures TokenChar(s[i]) <==> IsToken(s[i])
    {
      TokenCharExact(s[i]);
    }
    TokenCharExact(next);
    ScanStretch(s, p, AtTokenEnd(next));
    if Tokens(s, p, z) && s[z] == next {
      ScanUnique(s, p, AtTokenEnd(next), z);
    }
  }

  lemma BlankStretch(s: seq<Byte>, p: nat, v: nat)
    requires p <= v < |s|
    ensures Blanks(s, p, v) && !IsBlank(s[v]) <==> Scan(s, p, AtNonBlank) == v
  {
    hide Scan, IsBlank, Blank;
    forall i | 0 <= i < |s|
      ensures Blank(s[i]) <==> IsBlank(s[i])
    {
      ClassesExact(s[i]);
    }
    ScanStretch(s, p, AtNonBlank);
    if Blanks(s, p, v) && !IsBlank(s[v]) {
      ScanUnique(s, p, AtNonBlank, v);
    }
  }

  lemma TokensAreNoBlanks(b: Byte)
    requires IsToken(b)
    ensures !IsBlank(b) && b != CR && b != LF && b != SP
  {
    Delimiters();
  }

  lemma ColonAndSpace()
    ensures !IsToken(COLON) && !IsToken(SP)
    ensures COLON == ':' as int && SP == ' ' as int
  {
    Delimiters();
  }

  lemma NameExact(s: seq<Byte>, p: nat, name: Option<Slice>, first: bool, v: nat)
    requires p < |s|
    ensures NameAt(s, p, name, first, v) <==> HeaderName(s, p, first) == Ok(v, name)
  {
    hide Scan, IsToken, IsBlank, Token, Blank;
    ColonAndSpace();
    ClassesExact(s[p]);
    match name
    case None =>
    case Some(w) =>
      if NameAt(s, p, name, first, v) {
        TokensAreNoBlanks(s[p]);
        TokenStretch(s, p, w.End(), COLON);
        BlankStretch(s, w.End() + 1, v);
      }
      if HeaderName(s, p, first) == Ok(v, name) {
        TokenStretch(s, p, w.End(), COLON);
        BlankStretch(s, w.End() + 1, v);
      }
  }

  lemma FieldExact(s: seq<Byte>, p: nat, h: Header, first: bool, q: nat)
    requires p < |s|
    ensures FieldAt(s, p, h, first, q) <==> HeaderLine(s, p, first) == Ok(q, h)
  {
    hide NameAt, ValueAt, HeaderName, Line, Trimmed;
    NameExact(s, p, h.name, first, h.value.start);
    if FieldAt(s, p, h, first, q) {
      NameInside(s, p, h.name, first, h.value.start);
      ValueExact(s, h.value.start, h.value, q);
    }
    if HeaderLine(s, p, first) == Ok(q, h) {
      ValueExact(s, HeaderName(s, p, first).pos, h.value, q);
    }
  }

  lemma NameInside(s: seq<Byte>, p: nat, name: Option<Slice>, first: bool, v: nat)
    requires NameAt(s, p, name, first, v)
    ensures v < |s| && p < |s| && s[p] != CR && s[p] != LF
  {
    hide IsToken, IsBlank;
    if name.Some? {
      TokensAreNoBlanks(s[p]);
    } else {
      ClassesExact(s[p]);
    }
  }

  /** The header section of the parser is the one described. */
  lemma FieldsExact(s: seq<Byte>, p: nat, hs: seq<Header>, n: nat, max: nat, q: nat)
    requires p <= |s| && n <= max
    ensures FieldsAt(s, p, hs, n == 0, q) && n + |hs| <= max <==> Headers(s, p, n, max) == Ok(q, hs)
  {
    hide FieldsAt, Headers;
    if FieldsAt(s, p, hs, n == 0, q) && n + |hs| <= max {
      FieldsRead(s, p, hs, n, max, q);
    }
    if Headers(s, p, n, max) == Ok(q, hs) {
      FieldsWritten(s, p, n, max);
    }
  }

  lemma {:induction false} FieldsRead(s: seq<Byte>, p: nat, hs: seq<Header>, n: nat, max: nat, q: nat)
    requires p <= |s| && FieldsAt(s, p, hs, n == 0, q) && n + |hs| <= max
    ensures Headers(s, p, n, max) == Ok(q, hs)
    decreases |hs|
  {
    hide HeaderLine, FieldAt, EolAt;
    BreakExact(s, p, q);
    if hs != [] {
      var m :| FieldAt(s, p, hs[0], n == 0, m) && FieldsAt(s, m, hs[1..], false, q);
      FieldStarts(s, p, hs[0], n == 0, m);
      FieldExact(s, p, hs[0], n == 0, m);
      FieldsRead(s, m, hs[1..], n + 1, max, q);
      assert hs == [hs[0]] + hs[1..];
    }
  }

  lemma FieldStarts(s: seq<Byte>, p: nat, h: Header, first: bool, m: nat)
    requires p <= |s| && FieldAt(s, p, h, first, m)
    ensures p < |s| && Break(s, p) == Ok(p, false)
  {
    hide NameAt, ValueAt;
    NameInside(s, p, h.name, first, h.value.start);
  }

  lemma {:induction false} FieldsWritten(s: seq<Byte>, p: nat, n: nat, max: nat)
    requires p <= |s| && n <= max && Headers(s, p, n, max).Ok?
    ensures var r := Headers(s, p, n, max);
            FieldsAt(s, p, r.value, n == 0, r.pos) && n + |r.value| <= max
    decreases |s| - p
  {
    hide HeaderLine, FieldAt, EolAt;
    var r := Headers(s, p, n, max);
    BreakExact(s, p, r.pos);
    if Break(s, p) == Ok(p, false) {
      var line := HeaderLine(s, p, n == 0);
      FieldExact(s, p, line.value, n == 0, line.pos);
      FieldsWritten(s, line.pos, n + 1, max);
      assert r.value[0] == line.value && r.value[1..] == Headers(s, line.pos, n + 1, max).value;
    }
  }

  // ---------------------------------------------------------------- requests

  /** "HTTP/1." and the digit of `minor`. */
  predicate VersionAt(s: seq<Byte>, v: nat, minor: nat) {
    && minor <= 9 && v + 8 <= |s|
    && s[v..v + 7] == Ascii("HTTP/1.") && s[v + 7] == Ascii("0123456789")[minor]
  }

  lemma VersionExact(s: seq<Byte>, v: nat, minor: nat)
    requires v + 9 <= |s|
    ensures VersionAt(s, v, minor) <==> Version(s, v) == Ok(v + 8, minor)
  {
    assert Ascii("HTTP/1.") == VERSION_PREFIX;
    if minor <= 9 {
      DigitExact(s[v + 7], minor);
    }
  }

  /** Method and target, each followed by spaces; the version is at `v`. */
  predicate MethodAndTargetAt(s: seq<Byte>, m: Slice, w: Slice, v: nat) {
    && m.len > 0 && Tokens(s, m.start, m.End())
    && m.End() < w.start && Spaces(s, m.End(), w.start)
    && w.len > 0 && Targets(s, w.start, w.End())
    && w.End() < v < |s| && Spaces(s, w.End(), v) && s[v] != ' ' as int
  }

  lemma TargetStretch(s: seq<Byte>, p: nat, z: nat)
    requires p <= z < |s|
    ensures Targets(s, p, z) && s[z] == SP <==> Target(s, p) == Ok(z, Slice(p, z - p))
  {
    hide Scan, IsTarget, Control;
    forall i | 0 <= i < |s|
      ensures Stops(AtPathEnd, s[i]) <==> !IsTarget(s[i])
    {
      ClassesExact(s[i]);
    }
    ScanStretch(s, p, AtPathEnd);
    if Targets(s, p, z) && s[z] == SP {
      ClassesExact(s[z]);
      ScanUnique(s, p, AtPathEnd, z);
    }
  }

  lemma SpaceStretch(s: seq<Byte>, p: nat, v: nat)
    requires p <= v < |s|
    ensures Spaces(s, p, v) && s[v] != SP <==> SkipSpaces(s, p).Ok? && SkipSpaces(s, p).pos == v
  {
    hide Scan;
    ScanStretch(s, p, AtNonSpace);
    if Spaces(s, p, v) && s[v] != SP {
      assert forall i :: p <= i < v ==> !Stops(AtNonSpace, s[i]);
      ScanUnique(s, p, AtNonSpace, v);
    }
    assert forall i :: p <= i < Scan(s, p, AtNonSpace) ==> !Stops(AtNonSpace, s[i]);
  }

  lemma MethodAndTargetRead(s: seq<Byte>, m: Slice, w: Slice, v: nat)
    requires MethodAndTargetAt(s, m, w, v)
    ensures m.start <= |s| && MethodAndTarget(s, m.start) == Ok(v, (m, w))
  {
    hide Token, Target, SkipSpaces, IsToken, IsTarget;
    ColonAndSpace();
    TokenStretch(s, m.start, m.End(), SP);
    TargetIsNoSpace(s[w.start]);
    SpaceStretch(s, m.End() + 1, w.start);
    TargetStretch(s, w.start, w.End());
    SpaceStretch(s, w.End() + 1, v);
  }

  lemma TargetIsNoSpace(b: Byte)
    requires IsTarget(b)
    ensures b != SP
  {
  }

  lemma MethodAndTargetWritten(s: seq<Byte>, p: nat)
    requires p <= |s| && MethodAndTarget(s, p).Ok?
    ensures var r := MethodAndTarget(s, p);
            MethodAndTargetAt(s, r.value.0, r.value.1, r.pos) && r.value.0.start == p
  {
    hide Token, Target, SkipSpaces, IsToken, IsTarget;
    ColonAndSpace();
    var m := Token(s, p, SP);
    TokenStretch(s, p, m.pos, SP);
    var gap := SkipSpaces(s, m.pos + 1);
    SpaceStretch(s, m.pos + 1, gap.pos);
    var w := Target(s, gap.pos);
    TargetStretch(s, gap.pos, w.pos);
    SpaceStretch(s, w.pos + 1, SkipSpaces(s, w.pos + 1).pos);
    SpacesFrom(s, m.pos, gap.pos);
    SpacesFrom(s, w.pos, SkipSpaces(s, w.pos + 1).pos);
  }

  lemma SpacesFrom(s: seq<Byte>, a: nat, z: nat)
    requires a < |s| && s[a] == SP && Spaces(s, a + 1, z)
    ensures Spaces(s, a, z)
  {
  }

  /** The line break that may stand in front of a request. */
  predicate LeadAt(s: seq<Byte>, p: nat) {
    p <= |s| && (p == 0 || s[..p] == Ascii("\n") || s[..p] == Ascii("\r\n"))
  }

  lemma LeadExact(s: seq<Byte>, p: nat)
    requires p < |s| && s[p] != CR && s[p] != LF
    ensures LeadAt(s, p) <==> Break(s, 0).Ok? && Break(s, 0).pos == p
  {
    EolBytes(s, 0, p);
    assert p > 0 ==> s[0..p] == s[..p];
    assert p > 0 && LeadAt(s, p) ==> EolAt(s, 0, p);
  }

  /** A request that ends at `q`, by its bytes and slices. */
  ghost predicate RequestAt(s: seq<Byte>, r: Message, q: nat) {
    && r.Request? && LeadAt(s, r.method_.start)
    && exists v: nat, l: nat ::
         && MethodAndTargetAt(s, r.method_, r.path, v)
         && VersionAt(s, v, r.minor) && EolAt(s, v + 8, l)
         && FieldsAt(s, l, r.headers, true, q)
  }

  /** The exact language of the request parser: it answers with length `q` and slices `r` if
      and only if the bytes are laid out like that. */
  lemma RequestExact(s: seq<Byte>, r: Message, q: nat, max: nat)
    ensures ParseRequest(s, max) == Ok(q, r) <==> RequestAt(s, r, q) && |r.headers| <= max
  {
    hide ParseRequest, RequestAt;
    if RequestAt(s, r, q) && |r.headers| <= max {
      RequestRead(s, r, q, max);
    }
    if ParseRequest(s, max) == Ok(q, r) {
      RequestWritten(s, max);
    }
  }

  lemma RequestRead(s: seq<Byte>, r: Message, q: nat, max: nat)
    requires RequestAt(s, r, q) && |r.headers| <= max
    ensures ParseRequest(s, max) == Ok(q, r)
  {
    hide MethodAndTarget, Version, Headers, FieldsAt, MethodAndTargetAt, VersionAt, EolAt, LeadAt, Break;
    var v: nat, l: nat :| && MethodAndTargetAt(s, r.method_, r.path, v)
                && VersionAt(s, v, r.minor) && EolAt(s, v + 8, l)
                && FieldsAt(s, l, r.headers, true, q);
    MethodStartsPlain(s, r.method_, r.path, v);
    LeadExact(s, r.method_.start);
    MethodAndTargetRead(s, r.method_, r.path, v);
    EolIsNoText(s, v + 8, l);
    EolBytes(s, v + 8, l);
    VersionExact(s, v, r.minor);
    BreakExact(s, v + 8, l);
    FieldsExact(s, l, r.headers, 0, max, q);
  }

  lemma MethodStartsPlain(s: seq<Byte>, m: Slice, w: Slice, v: nat)
    requires MethodAndTargetAt(s, m, w, v)
    ensures m.start < |s| && s[m.start] != CR && s[m.start] != LF
  {
    hide IsToken, IsTarget;
    TokensAreNoBlanks(s[m.start]);
  }

  lemma RequestWritten(s: seq<Byte>, max: nat)
    requires ParseRequest(s, max).Ok?
    ensures var r := ParseRequest(s, max);
            RequestAt(s, r.value, r.pos) && |r.value.headers| <= max
  {
    hide MethodAndTarget, Version, Headers, FieldsAt, MethodAndTargetAt, VersionAt, EolAt, LeadAt, Break;
    var p := Break(s, 0).pos;
    MethodAndTargetWritten(s, p);
    var r := MethodAndTarget(s, p);
    MethodStartsPlain(s, r.value.0, r.value.1, r.pos);
    LeadExact(s, p);
    VersionExact(s, r.pos, Version(s, r.pos).value);
    var l := Expected(s, r.pos + 8).pos;
    BreakExact(s, r.pos + 8, l);
    FieldsWritten(s, l, 0, max);
  }

  // ---------------------------------------------------------------- responses

  /** Three digits that spell `status`. */
  predicate StatusAt(s: seq<Byte>, p: nat, status: nat) {
    && status <= 999 && p + 3 <= |s|
    && s[p] == Ascii("0123456789")[status / 100]
    && s[p + 1] == Ascii("0123456789")[status / 10 % 10]
    && s[p + 2] == Ascii("0123456789")[status % 10]
  }

  lemma StatusExact(s: seq<Byte>, p: nat, status: nat)
    requires p + 4 <= |s|
    ensures StatusAt(s, p, status) <==> Status(s, p) == Ok(p + 3, status)
  {
    hide StatusAt, Status;
    if StatusAt(s, p, status) {
      StatusRead(s, p, status);
    }
    if Status(s, p) == Ok(p + 3, status) {
      StatusWritten(s, p);
    }
  }

  lemma DigitIs(b: Byte, v: nat)
    requires v < 10 && b == Ascii("0123456789")[v]
    ensures Digit(b) && DigitValue(b) == v
  {
    DigitExact(b, v);
  }

  lemma StatusRead(s: seq<Byte>, p: nat, status: nat)
    requires p + 4 <= |s| && StatusAt(s, p, status)
    ensures Status(s, p) == Ok(p + 3, status)
  {
    hide Ascii, Digit, DigitValue;
    DigitIs(s[p], status / 100);
    DigitIs(s[p + 1], status / 10 % 10);
    DigitIs(s[p + 2], status % 10);
    Recompose(status);
  }

  lemma StatusWritten(s: seq<Byte>, p: nat)
    requires p + 4 <= |s| && Status(s, p).Ok?
    ensures StatusAt(s, p, Status(s, p).value)
  {
    hide Ascii, Digit, DigitValue;
    var a, b, c := DigitValue(s[p]), DigitValue(s[p + 1]), DigitValue(s[p + 2]);
    DigitsOf(a, b, c);
    DigitExact(s[p], a);
    DigitExact(s[p + 1], b);
    DigitExact(s[p + 2], c);
  }

  lemma DigitsOf(a: nat, b: nat, c: nat)
    requires a <= 9 && b <= 9 && c <= 9
    ensures var n := 100 * a + 10 * b + c;
            n <= 999 && n / 100 == a && n / 10 % 10 == b && n % 10 == c
  {
  }

  /** The rest of the status line: nothing, or spaces and the reason. */
  predicate ReasonAt(s: seq<Byte>, p: nat, w: Slice, q: nat) {
    && Spaces(s, p, w.start) && Texts(s, w.start, w.End()) && EolAt(s, w.End(), q)
    && (w.len > 0 ==> p < w.start && s[w.start] != ' ' as int)
  }

  lemma SpacesAreText(s: seq<Byte>, a: nat, z: nat)
    requires Spaces(s, a, z)
    ensures Texts(s, a, z)
  {
  }

  lemma {:induction false} ScanWithinExact(s: seq<Byte>, p: nat, end: nat, q: nat)
    requires p <= end < |s| && s[end] != SP
    ensures Spaces(s, p, q) && q <= end && s[q] != SP <==> ScanWithin(s, p, AtNonSpace, end) == q
    decreases end - p
  {
    if s[p] == SP {
      ScanWithinExact(s, p + 1, end, q);
    }
  }

  lemma ReasonExact(s: seq<Byte>, p: nat, w: Slice, q: nat)
    requires p <= |s|
    ensures ReasonAt(s, p, w, q) <==> Reason(s, p) == Ok(q, w)
  {
    hide Line, IsText, EolAt;
    if ReasonAt(s, p, w, q) {
      SpacesAreText(s, p, w.start);
      LineExact(s, p, w.End(), q);
      EolIsNoText(s, w.End(), q);
      ScanWithinExact(s, p, w.End(), w.start);
    }
    if Reason(s, p) == Ok(q, w) {
      var x := Line(s, p).value.End();
      LineExact(s, p, x, q);
      EolIsNoText(s, x, q);
      ScanWithinExact(s, p, x, w.start);
    }
  }

  /** A response that ends at `q`; the status code is at `p`. */
  ghost predicate ResponseAt(s: seq<Byte>, r: Message, q: nat) {
    && r.Response? && VersionAt(s, 0, r.minor)
    && exists p: nat, l: nat ::
         && 8 < p && Spaces(s, 8, p) && StatusAt(s, p, r.status)
         && ReasonAt(s, p + 3, r.reason, l)
         && FieldsAt(s, l, r.headers, true, q)
  }

  lemma ResponseExact(s: seq<Byte>, r: Message, q: nat, max: nat)
    ensures ParseResponse(s, max) == Ok(q, r) <==> ResponseAt(s, r, q) && |r.headers| <= max
  {
    hide ParseResponse, ResponseAt;
    if ResponseAt(s, r, q) && |r.headers| <= max {
      ResponseRead(s, r, q, max);
    }
    if ParseResponse(s, max) == Ok(q, r) {
      ResponseWritten(s, max);
    }
  }

  lemma ReasonInside(s: seq<Byte>, p: nat, w: Slice, q: nat)
    requires ReasonAt(s, p, w, q)
    ensures p < |s|
  {
    EolBytes(s, w.End(), q);
  }

  lemma StatusIsNoSpace(s: seq<Byte>, p: nat, status: nat)
    requires StatusAt(s, p, status)
    ensures s[p] != SP
  {
    DigitExact(s[p], status / 100);
  }

  lemma ResponseRead(s: seq<Byte>, r: Message, q: nat, max: nat)
    requires ResponseAt(s, r, q) && |r.headers| <= max
    ensures ParseResponse(s, max) == Ok(q, r)
  {
    hide Version, Status, Reason, Headers, FieldsAt, VersionAt, StatusAt, ReasonAt, SkipSpaces;
    var p: nat, l: nat :| && 8 < p && Spaces(s, 8, p) && StatusAt(s, p, r.status)
                && ReasonAt(s, p + 3, r.reason, l)
                && FieldsAt(s, l, r.headers, true, q);
    ReasonInside(s, p + 3, r.reason, l);
    VersionExact(s, 0, r.minor);
    StatusIsNoSpace(s, p, r.status);
    SpaceStretch(s, 9, p);
    StatusExact(s, p, r.status);
    ReasonExact(s, p + 3, r.reason, l);
    FieldsExact(s, l, r.headers, 0, max, q);
  }

  lemma ResponseWritten(s: seq<Byte>, max: nat)
    requires ParseResponse(s, max).Ok?
    ensures var r := ParseResponse(s, max);
            ResponseAt(s, r.value, r.pos) && |r.value.headers| <= max
  {
    hide Version, Status, Reason, Headers, FieldsAt, VersionAt, StatusAt, ReasonAt, SkipSpaces;
    VersionExact(s, 0, Version(s, 0).value);
    var p := StatusHead(s).pos;
    SpaceStretch(s, 9, p);
    SpacesFrom(s, 8, p);
    StatusExact(s, p, Status(s, p).value);
    var reason := Reason(s, p + 3);
    ReasonExact(s, p + 3, reason.value, reason.pos);
    FieldsWritten(s, reason.pos, 0, max);
  }
}
