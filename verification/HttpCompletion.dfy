/** Which partial requests can still become requests, and how much is missing. The parser
    answers "partial" as long as it has not looked at the offending byte, so not every
    partial request has a future. */
module HttpCompletion {
  import opened Bytes
  import opened Wrappers
  import opened HttpSyntax
  import opened HttpStability
  import opened HttpIncremental

  /** What a header line still needs, up to and including the empty line behind it. */
  function LineMissing(s: seq<Byte>, p: nat, first: bool): nat
    requires p < |s|
  {
    if HeaderName(s, p, first).Partial? && Token(s, p, COLON).Partial? then 3 else 2
  }

  /** What a header section still needs; none if it is bad already. */
  function HeadersMissing(s: seq<Byte>, p: nat, n: nat, max: nat): Option<nat>
    requires p <= |s|
    decreases |s| - p
  {
    match Break(s, p)
    case Bad => None
    case Partial => Some(1)
    case Ok(_, true) => Some(0)
    case Ok(_, false) =>
      if n == max then None
      else
        match HeaderLine(s, p, n == 0)
        case Bad => None
        case Partial => Some(LineMissing(s, p, n == 0))
        case Ok(next, _) => HeadersMissing(s, next, n + 1, max)
  }

  /** The bytes present agree with "HTTP/1." and a digit. */
  predicate VersionAgrees(s: seq<Byte>, p: nat)
    requires p <= |s| < p + 9
  {
    && (forall i :: p <= i < |s| && i < p + 7 ==> s[i] == VERSION_PREFIX[i - p])
    && (|s| == p + 8 ==> Digit(s[p + 7]))
  }

  /** The same from the version on. */
  function VersionMissing(s: seq<Byte>, p: nat, max: nat): Option<nat>
    requires p <= |s|
  {
    if |s| - p < 9 then
      if VersionAgrees(s, p) then Some(10 - (|s| - p)) else None
    else
      match Version(s, p)
      case Bad => None
      case Partial => None
      case Ok(q, _) =>
        match Expected(s, q)
        case Bad => None
        case Partial => Some(2)
        case Ok(next, _) => HeadersMissing(s, next, 0, max)
  }

  /** The same from the target on. */
  function TargetMissing(s: seq<Byte>, p: nat, max: nat): Option<nat>
    requires p < |s| && s[p] != SP
  {
    match Target(s, p)
    case Bad => None
    case Partial => Some(11)
    case Ok(q, _) =>
      match SkipSpaces(s, q + 1)
      case Bad => None
      case Partial => Some(10)
      case Ok(v, _) => VersionMissing(s, v, max)
  }

  /** The same from the method on. An empty method is not refused before the version. */
  function MethodMissing(s: seq<Byte>, p: nat, max: nat): Option<nat>
    requires p <= |s|
  {
    match Token(s, p, SP)
    case Bad => None
    case Partial => Some(if p == |s| then 14 else 13)
    case Ok(q, m) =>
      if m.len == 0 then None
      else
        match SkipSpaces(s, q + 1)
        case Bad => None
        case Partial => Some(12)
        case Ok(next, _) => TargetMissing(s, next, max)
  }

  /** The fewest bytes that make `s` start with a request; none if no bytes do. */
  function Missing(s: seq<Byte>, max: nat): Option<nat> {
    match Break(s, 0)
    case Bad => None
    case Partial => Some(if s == [] then 14 else 15)
    case Ok(p, _) => MethodMissing(s, p, max)
  }

  /** `v` is a lower bound for what lies between the end of `s` and `end`. */
  predicate AtLeast(s: seq<Byte>, v: Option<nat>, end: nat) {
    v.Some? && (v.value == 0 || |s| + v.value <= end)
  }

  // ---------------------------------------------------------------- nothing shorter will do

  lemma ScanReaches(s: seq<Byte>, t: seq<Byte>, p: nat, k: Stop)
    requires s <= t && p <= |s| && Scan(s, p, k) == |s|
    ensures |s| <= Scan(t, p, k)
  {
    ScanStretch(s, p, k);
    ScanStretch(t, p, k);
  }

  lemma LineNeeds(s: seq<Byte>, t: seq<Byte>, p: nat, first: bool)
    requires s <= t && p < |s| && HeaderLine(s, p, first).Partial? && HeaderLine(t, p, first).Ok?
    ensures |s| + LineMissing(s, p, first) <= HeaderLine(t, p, first).pos + 1
  {
    hide Scan, Trimmed;
    var name := HeaderName(s, p, first);
    HeaderNameStable(s, t, p, first);
    if name.Ok? {
      LineReaches(s, t, name.pos);
    } else {
      TokenStable(s, t, p, COLON);
      if Token(s, p, COLON).Partial? {
        ScanReaches(s, t, p, AtTokenEnd(COLON));
      } else {
        ScanReaches(s, t, Token(s, p, COLON).pos + 1, AtNonBlank);
      }
    }
  }

  lemma LineReaches(s: seq<Byte>, t: seq<Byte>, p: nat)
    requires s <= t && p <= |s| && Line(s, p).Partial? && Line(t, p).Ok?
    ensures |s| + 1 <= Line(t, p).pos
  {
    hide Scan;
    var q := Scan(s, p, AtLineControl);
    if q == |s| {
      ScanReaches(s, t, p, AtLineControl);
    } else {
      ScanStable(s, t, p, AtLineControl);
    }
  }

  lemma {:induction false} HeadersNeed(s: seq<Byte>, t: seq<Byte>, p: nat, n: nat, max: nat)
    requires s <= t && p <= |s| && Headers(t, p, n, max).Ok?
    ensures AtLeast(s, HeadersMissing(s, p, n, max), Headers(t, p, n, max).pos)
    decreases |s| - p
  {
    hide HeaderLine, LineMissing;
    if Break(s, p) == Ok(p, false) {
      HeaderLineStable(s, t, p, n == 0);
      var line := HeaderLine(s, p, n == 0);
      if line.Ok? {
        HeadersNeed(s, t, line.pos, n + 1, max);
      } else if line.Partial? {
        LineNeeds(s, t, p, n == 0);
      }
    }
  }

  /** A request from the version on. */
  predicate VersionOk(t: seq<Byte>, p: nat, max: nat) {
    && p <= |t| && Version(t, p).Ok? && Expected(t, p + 8).Ok?
    && Headers(t, Expected(t, p + 8).pos, 0, max).Ok?
  }

  function EndFrom(t: seq<Byte>, p: nat, max: nat): (end: nat)
    requires VersionOk(t, p, max)
    ensures p + 10 <= end <= |t|
  {
    Headers(t, Expected(t, p + 8).pos, 0, max).pos
  }

  lemma VersionNeeds(s: seq<Byte>, t: seq<Byte>, p: nat, max: nat)
    requires s <= t && p <= |s| && VersionOk(t, p, max)
    ensures AtLeast(s, VersionMissing(s, p, max), EndFrom(t, p, max))
  {
    hide Headers, HeadersMissing;
    if |s| - p < 9 {
      forall i | p <= i < |s| && i < p + 7
        ensures s[i] == VERSION_PREFIX[i - p]
      {
        assert t[i] == t[p..p + 7][i - p];
      }
    } else {
      VersionStable(s, t, p);
      if Expected(s, p + 8).Ok? {
        HeadersNeed(s, t, Expected(s, p + 8).pos, 0, max);
      }
    }
  }

  /** A request from the target on. */
  predicate TargetOk(t: seq<Byte>, p: nat, max: nat) {
    && p < |t| && t[p] != SP && Target(t, p).Ok?
    && SkipSpaces(t, Target(t, p).pos + 1).Ok?
    && VersionOk(t, SkipSpaces(t, Target(t, p).pos + 1).pos, max)
  }

  lemma TargetNeeds(s: seq<Byte>, t: seq<Byte>, p: nat, max: nat)
    requires s <= t && p < |s| && TargetOk(t, p, max)
    ensures AtLeast(s, TargetMissing(s, p, max), EndFrom(t, SkipSpaces(t, Target(t, p).pos + 1).pos, max))
  {
    hide Scan, VersionMissing, VersionOk, EndFrom;
    TargetStable(s, t, p);
    var path := Target(s, p);
    if path.Partial? {
      ScanReaches(s, t, p, AtPathEnd);
    } else if path.Ok? {
      SkipSpacesStable(s, t, path.pos + 1);
      var gap := SkipSpaces(s, path.pos + 1);
      if gap.Partial? {
        ScanReaches(s, t, path.pos + 1, AtNonSpace);
      } else {
        VersionNeeds(s, t, gap.pos, max);
      }
    }
  }

  /** The start of the target behind a method at `p`, and of the version behind that. */
  predicate LineOk(t: seq<Byte>, p: nat, max: nat) {
    && p <= |t| && MethodAndTarget(t, p).Ok? && VersionOk(t, MethodAndTarget(t, p).pos, max)
  }

  lemma MethodNeeds(s: seq<Byte>, t: seq<Byte>, p: nat, max: nat)
    requires s <= t && p <= |s| && LineOk(t, p, max)
    ensures AtLeast(s, MethodMissing(s, p, max), EndFrom(t, MethodAndTarget(t, p).pos, max))
  {
    hide Scan, VersionOk, EndFrom, TargetMissing;
    TokenStable(s, t, p, SP);
    var m := Token(s, p, SP);
    var p1 := Token(t, p, SP).pos;
    var p2 := SkipSpaces(t, p1 + 1).pos;
    if m.Partial? {
      ScanReaches(s, t, p, AtTokenEnd(SP));
    } else if m.Ok? {
      SkipSpacesStable(s, t, p1 + 1);
      if SkipSpaces(s, p1 + 1).Partial? {
        ScanReaches(s, t, p1 + 1, AtNonSpace);
      } else {
        TargetNeeds(s, t, p2, max);
      }
    }
  }

  lemma LineOfRequest(t: seq<Byte>, max: nat)
    requires ParseRequest(t, max).Ok?
    ensures Break(t, 0).Ok? && LineOk(t, Break(t, 0).pos, max)
    ensures EndFrom(t, MethodAndTarget(t, Break(t, 0).pos).pos, max) == ParseRequest(t, max).pos
  {
    hide MethodAndTarget, Headers;
  }

  /** Whatever makes a request of `s` is at least that long. */
  lemma NothingShorter(s: seq<Byte>, t: seq<Byte>, max: nat)
    requires s <= t && ParseRequest(t, max).Ok?
    ensures AtLeast(s, Missing(s, max), ParseRequest(t, max).pos)
  {
    hide MethodAndTarget, VersionOk, EndFrom, MethodMissing, Headers, ParseRequest;
    LineOfRequest(t, max);
    var p := Break(t, 0).pos;
    if Break(s, 0).Ok? {
      MethodNeeds(s, t, p, max);
    } else {
      LineNeedsFourteen(t, p, max);
    }
  }

  lemma LineNeedsFourteen(t: seq<Byte>, p: nat, max: nat)
    requires LineOk(t, p, max)
    ensures p + 14 <= EndFrom(t, MethodAndTarget(t, p).pos, max)
  {
    hide Scan, VersionOk, EndFrom;
  }

  // ---------------------------------------------------------------- that much will do

  /** A shortest request: one letter, one slash. */
  const SHORTEST: seq<Byte> := [71, 32, 47, 32, 72, 84, 84, 80, 47, 49, 46, 48, LF, LF]

  /** Its last `v` bytes. */
  function Rest(v: nat): (c: seq<Byte>)
    requires v <= 14
    ensures |c| == v && forall i :: 0 <= i < v ==> c[i] == SHORTEST[14 - v + i]
  {
    SHORTEST[14 - v..]
  }

  lemma RestByte(s: seq<Byte>, v: nat, j: nat)
    requires 14 <= v + j && j < 14 && v <= 14
    ensures (s + Rest(v))[|s| + v - 14 + j] == SHORTEST[j]
  {
    hide Rest;
  }

  /** A scan that had not stopped goes on to `q`. */
  lemma ScanOn(s: seq<Byte>, t: seq<Byte>, p: nat, k: Stop, q: nat)
    requires s <= t && p <= |s| <= q < |t| && Scan(s, p, k) == |s|
    requires Stops(k, t[q]) && forall i :: |s| <= i < q ==> !Stops(k, t[i])
    ensures Scan(t, p, k) == q
  {
    ScanStretch(s, p, k);
    forall i | p <= i < q
      ensures !Stops(k, t[i])
    {
      if i < |s| {
        assert !Stops(k, s[i]);
      }
    }
    ScanUnique(t, p, k, q);
  }

  lemma {:induction false} HeadersComplete(s: seq<Byte>, p: nat, n: nat, max: nat) returns (c: seq<Byte>)
    requires p <= |s| && HeadersMissing(s, p, n, max).Some?
    ensures |c| == HeadersMissing(s, p, n, max).value && Headers(s + c, p, n, max).Ok?
    decreases |s| - p
  {
    hide HeaderLine, LineMissing;
    if Break(s, p).Partial? {
      c := [LF];
    } else if Break(s, p).value {
      c := [];
      assert s + c == s;
    } else {
      var line := HeaderLine(s, p, n == 0);
      if line.Ok? {
        c := HeadersComplete(s, line.pos, n + 1, max);
        HeaderLineStable(s, s + c, p, n == 0);
      } else {
        c := LineComplete(s, p, n == 0);
        LastLine(s + c, p, n, max);
      }
    }
  }

  /** A header line followed by an LF that ends the bytes. */
  lemma LastLine(t: seq<Byte>, p: nat, n: nat, max: nat)
    requires p < |t| && Break(t, p) == Ok(p, false) && n != max
    requires HeaderLine(t, p, n == 0).Ok? && HeaderLine(t, p, n == 0).pos == |t| - 1 && t[|t| - 1] == LF
    ensures Headers(t, p, n, max).Ok?
  {
    hide HeaderLine;
  }

  lemma LineComplete(s: seq<Byte>, p: nat, first: bool) returns (c: seq<Byte>)
    requires p < |s| && HeaderLine(s, p, first).Partial?
    ensures |c| == LineMissing(s, p, first) && |c| > 0 && c[|c| - 1] == LF
    ensures HeaderLine(s + c, p, first).Ok? && HeaderLine(s + c, p, first).pos == |s + c| - 1
  {
    hide Scan, Trimmed, Line;
    var name := HeaderName(s, p, first);
    if name.Ok? {
      c := [LF, LF];
      HeaderNameStable(s, s + c, p, first);
      LineEnds(s, name.pos);
    } else if Token(s, p, COLON).Partial? {
      c := [COLON, LF, LF];
      ScanOn(s, s + c, p, AtTokenEnd(COLON), |s|);
      ScanUnique(s + c, |s| + 1, AtNonBlank, |s| + 1);
      EmptyLineAt(s + c, |s| + 1);
    } else {
      c := [LF, LF];
      TokenStable(s, s + c, p, COLON);
      ScanOn(s, s + c, Token(s, p, COLON).pos + 1, AtNonBlank, |s|);
      EmptyLineAt(s + c, |s|);
    }
  }

  lemma EmptyLineAt(t: seq<Byte>, p: nat)
    requires p < |t| && t[p] == LF
    ensures Line(t, p).Ok? && Line(t, p).pos == p + 1
  {
  }

  lemma LineEnds(s: seq<Byte>, p: nat)
    requires p <= |s| && Line(s, p).Partial?
    ensures Line(s + [LF, LF], p).Ok? && Line(s + [LF, LF], p).pos == |s| + 1
  {
    hide Scan;
    var t := s + [LF, LF];
    if Scan(s, p, AtLineControl) == |s| {
      ScanOn(s, t, p, AtLineControl, |s|);
    } else {
      ScanStable(s, t, p, AtLineControl);
    }
  }

  /** A version, two LFs, and nothing behind them. */
  predicate Ends(t: seq<Byte>, p: nat) {
    && |t| == p + 10 && t[p..p + 7] == VERSION_PREFIX && Digit(t[p + 7])
    && t[p + 8] == LF && t[p + 9] == LF
  }

  lemma EndsIsOk(t: seq<Byte>, p: nat, max: nat)
    requires Ends(t, p)
    ensures VersionOk(t, p, max)
  {
  }

  lemma VersionCompletes(s: seq<Byte>, p: nat, max: nat) returns (c: seq<Byte>)
    requires p <= |s| && VersionMissing(s, p, max).Some?
    ensures |c| == VersionMissing(s, p, max).value && VersionOk(s + c, p, max)
  {
    hide Headers, HeadersMissing;
    if |s| - p < 9 {
      var k := |s| - p;
      c := Rest(10 - k);
      VersionFilled(s, p);
      EndsIsOk(s + c, p, max);
    } else if Expected(s, p + 8).Partial? {
      c := [LF, LF];
      VersionStable(s, s + c, p);
      OnlyBreak(s + c, |s| + 1, max);
    } else {
      c := HeadersComplete(s, Expected(s, p + 8).pos, 0, max);
      VersionStable(s, s + c, p);
    }
  }

  lemma OnlyBreak(t: seq<Byte>, p: nat, max: nat)
    requires p < |t| && t[p] == LF
    ensures Headers(t, p, 0, max).Ok?
  {
  }

  lemma VersionFilled(s: seq<Byte>, p: nat)
    requires p <= |s| < p + 9 && VersionAgrees(s, p)
    ensures Ends(s + Rest(10 - (|s| - p)), p)
  {
    var k := |s| - p;
    var t := s + Rest(10 - k);
    forall i | 0 <= i < 7
      ensures t[p..p + 7][i] == VERSION_PREFIX[i]
    {
      if i < k {
        assert t[p + i] == s[p + i];
      } else {
        assert t[p + i] == SHORTEST[4 + i];
      }
    }
    assert t[p + 7] == if k == 8 then s[p + 7] else SHORTEST[11];
    assert t[p + 8] == SHORTEST[12] && t[p + 9] == SHORTEST[13];
  }

  lemma VersionWhole(s: seq<Byte>, v: nat)
    requires 10 <= v <= 14
    ensures Ends(s + Rest(v), |s| + v - 10)
  {
    var t, p := s + Rest(v), |s| + v - 10;
    assert forall j :: p <= j < p + 10 ==> t[j] == SHORTEST[4 + j - p];
    forall i | 0 <= i < 7
      ensures t[p..p + 7][i] == VERSION_PREFIX[i]
    {
      assert t[p + i] == SHORTEST[4 + i];
    }
  }

  lemma OneStep(t: seq<Byte>, p: nat, k: Stop)
    requires p < |t| && Stops(k, t[p])
    ensures Scan(t, p, k) == p
  {
  }

  /** Completes a request line from the target on. */
  lemma TargetCompletes(s: seq<Byte>, p: nat, max: nat) returns (c: seq<Byte>)
    requires p < |s| && s[p] != SP && TargetMissing(s, p, max).Some?
    ensures |c| == TargetMissing(s, p, max).value && TargetOk(s + c, p, max)
  {
    hide Target, SkipSpaces, VersionOk, VersionMissing, Rest;
    var path := Target(s, p);
    if path.Partial? {
      c := Rest(11);
      PathCompletes(s, p, max);
    } else if SkipSpaces(s, path.pos + 1).Partial? {
      c := Rest(10);
      SpacesComplete(s, p, max);
    } else {
      c := VersionCompletes(s, SkipSpaces(s, path.pos + 1).pos, max);
      TargetStable(s, s + c, p);
      SkipSpacesStable(s, s + c, path.pos + 1);
    }
  }

  lemma PathCompletes(s: seq<Byte>, p: nat, max: nat)
    requires p < |s| && s[p] != SP && Target(s, p).Partial?
    ensures TargetOk(s + Rest(11), p, max)
  {
    hide Scan, VersionOk, Ends, Rest;
    var t := s + Rest(11);
    assert t[|s|] == SHORTEST[3] && t[|s| + 1] == SHORTEST[4];
    ScanOn(s, t, p, AtPathEnd, |s|);
    OneStep(t, |s| + 1, AtNonSpace);
    VersionWhole(s, 11);
    EndsIsOk(t, |s| + 1, max);
  }

  lemma SpacesComplete(s: seq<Byte>, p: nat, max: nat)
    requires p < |s| && s[p] != SP && Target(s, p).Ok? && SkipSpaces(s, Target(s, p).pos + 1).Partial?
    ensures TargetOk(s + Rest(10), p, max)
  {
    hide Scan, VersionOk, Ends, Rest;
    var t := s + Rest(10);
    TargetStable(s, t, p);
    assert t[|s|] == SHORTEST[4];
    ScanOn(s, t, Target(s, p).pos + 1, AtNonSpace, |s|);
    VersionWhole(s, 10);
    EndsIsOk(t, |s|, max);
  }

  lemma OneByteTarget(t: seq<Byte>, p: nat)
    requires p + 2 < |t| && t[p] == 47 && t[p + 1] == SP && t[p + 2] != SP
    ensures Target(t, p) == Ok(p + 1, Slice(p, 1)) && SkipSpaces(t, p + 2) == Ok(p + 2, ())
  {
    hide Scan;
    ScanUnique(t, p, AtPathEnd, p + 1);
    ScanUnique(t, p + 2, AtNonSpace, p + 2);
  }

  /** A whole target and version at the end. */
  lemma TargetWhole(s: seq<Byte>, v: nat, max: nat)
    requires 12 <= v <= 14
    ensures TargetOk(s + Rest(v), |s| + v - 12, max)
  {
    hide Target, SkipSpaces, VersionOk, Ends, Rest;
    var t, p := s + Rest(v), |s| + v - 12;
    RestByte(s, v, 2);
    RestByte(s, v, 3);
    RestByte(s, v, 4);
    OneByteTarget(t, p);
    VersionWhole(s, v);
    EndsIsOk(t, p + 2, max);
  }

  lemma LineFromParts(t: seq<Byte>, p: nat, max: nat)
    requires p <= |t| && Token(t, p, SP).Ok? && Token(t, p, SP).value.len > 0
    requires SkipSpaces(t, Token(t, p, SP).pos + 1).Ok?
    requires TargetOk(t, SkipSpaces(t, Token(t, p, SP).pos + 1).pos, max)
    ensures LineOk(t, p, max)
  {
    hide Token, Scan, VersionOk;
  }

  lemma TokenCompletes(s: seq<Byte>, p: nat, max: nat) returns (c: seq<Byte>)
    requires p <= |s| && Token(s, p, SP).Partial?
    ensures |c| == (if p == |s| then 14 else 13) && LineOk(s + c, p, max)
    ensures p == |s| ==> c[0] == 71
  {
    hide TargetOk, LineOk, Scan, Rest;
    var v := if p == |s| then 14 else 13;
    c := Rest(v);
    var t, q := s + c, |s| + v - 13;
    assert t[q] == SHORTEST[1] && t[q + 1] == SHORTEST[2];
    assert v == 14 ==> t[|s|] == SHORTEST[0];
    ScanOn(s, t, p, AtTokenEnd(SP), q);
    OneStep(t, q + 1, AtNonSpace);
    TargetWhole(s, v, max);
    LineFromParts(t, p, max);
  }

  lemma GapCompletes(s: seq<Byte>, p: nat, max: nat)
    requires p <= |s| && Token(s, p, SP).Ok? && Token(s, p, SP).value.len > 0
    requires SkipSpaces(s, Token(s, p, SP).pos + 1).Partial?
    ensures LineOk(s + Rest(12), p, max)
  {
    hide TargetOk, LineOk, Scan, Rest;
    var t := s + Rest(12);
    TokenStable(s, t, p, SP);
    assert t[|s|] == SHORTEST[2];
    ScanOn(s, t, Token(s, p, SP).pos + 1, AtNonSpace, |s|);
    TargetWhole(s, 12, max);
    LineFromParts(t, p, max);
  }

  lemma MethodCompletes(s: seq<Byte>, p: nat, max: nat) returns (c: seq<Byte>)
    requires p <= |s| && MethodMissing(s, p, max).Some?
    ensures |c| == MethodMissing(s, p, max).value && LineOk(s + c, p, max)
    ensures p == |s| ==> c != [] && c[0] == 71
  {
    hide Token, SkipSpaces, TargetOk, LineOk, TargetMissing, Rest;
    var m := Token(s, p, SP);
    if m.Partial? {
      c := TokenCompletes(s, p, max);
    } else {
      var gap := SkipSpaces(s, m.pos + 1);
      if gap.Partial? {
        c := Rest(12);
        GapCompletes(s, p, max);
      } else {
        c := TargetCompletes(s, gap.pos, max);
        TokenStable(s, s + c, p, SP);
        SkipSpacesStable(s, s + c, m.pos + 1);
        LineFromParts(s + c, p, max);
      }
    }
  }

  lemma LineIsRequest(t: seq<Byte>, max: nat)
    requires Break(t, 0).Ok? && LineOk(t, Break(t, 0).pos, max)
    ensures ParseRequest(t, max).Ok?
  {
    hide MethodAndTarget, Headers;
  }

  lemma RequestCompletes(s: seq<Byte>, max: nat) returns (c: seq<Byte>)
    requires Missing(s, max).Some?
    ensures |c| == Missing(s, max).value && ParseRequest(s + c, max).Ok?
  {
    hide LineOk, MethodMissing, ParseRequest;
    if s == [] {
      NothingYet(s, max);
      c := MethodCompletes(s, 0, max);
      LineIsRequest(s + c, max);
    } else if Break(s, 0).Partial? {
      NothingYet(CRLF, max);
      var more := MethodCompletes(CRLF, 2, max);
      c := [LF] + more;
      assert s + c == CRLF + more;
      LineIsRequest(s + c, max);
    } else {
      c := MethodCompletes(s, Break(s, 0).pos, max);
      assert Break(s + c, 0) == Break(s, 0);
      LineIsRequest(s + c, max);
    }
  }

  lemma NothingYet(s: seq<Byte>, max: nat)
    ensures MethodMissing(s, |s|, max) == Some(14)
  {
  }

  /** Which bytes have a future, and how far it is: some bytes behind `s` make a request of
      it if and only if `Missing` has a value, that many are enough, and no fewer are. */
  lemma CompletableExactly(s: seq<Byte>, max: nat)
    ensures (exists t :: s <= t && ParseRequest(t, max).Ok?) <==> Missing(s, max).Some?
    ensures Missing(s, max).Some? ==>
              exists c :: |c| == Missing(s, max).value && ParseRequest(s + c, max).Ok?
    ensures forall c :: ParseRequest(s + c, max).Ok? ==>
              Missing(s, max).Some? && Missing(s, max).value <= |c|
  {
    hide Missing, ParseRequest;
    if Missing(s, max).Some? {
      var c := RequestCompletes(s, max);
      assert s <= s + c;
    }
    forall t | s <= t && ParseRequest(t, max).Ok?
      ensures AtLeast(s, Missing(s, max), ParseRequest(t, max).pos)
    {
      NothingShorter(s, t, max);
    }
    forall c | ParseRequest(s + c, max).Ok?
      ensures Missing(s, max).Some? && Missing(s, max).value <= |c|
    {
      assert s <= s + c;
    }
  }

  /** A partial request without a future: "G / X". */
  lemma PartialWithoutFuture(max: nat)
    ensures var s := [71, 32, 47, 32, 88];
            ParseRequest(s, max) == Partial && Missing(s, max) == None
  {
    hide Scan;
    var s: seq<Byte> := [71, 32, 47, 32, 88];
    ScanUnique(s, 0, AtTokenEnd(SP), 1);
    OneStep(s, 2, AtNonSpace);
    ScanUnique(s, 2, AtPathEnd, 3);
    OneStep(s, 4, AtNonSpace);
    assert !VersionAgrees(s, 4);
    assert VersionMissing(s, 4, max) == None;
    assert TargetMissing(s, 2, max) == None;
  }

  /** The request line is not complete. */
  predicate Unstarted(s: seq<Byte>) {
    !(Break(s, 0).Ok? && RequestLine(s, Break(s, 0).pos).Ok?)
  }

  /** A shortest completion of a request line adds no header. */
  lemma ShortestHasNoFields(s: seq<Byte>, c: seq<Byte>, max: nat)
    requires Unstarted(s) && ParseRequest(s + c, max).Ok?
    requires Missing(s, max) == Some(|c|)
    ensures ParseRequest(s + c, max).value.headers == []
  {
    hide RequestLine, Headers, Missing;
    var t := s + c;
    var p := Break(t, 0).pos;
    var end := RequestLine(t, p).pos;
    if end < |s| {
      LineInside(s, t);
      assert false;
    }
    var t1 := t[..end] + [LF];
    LineAlone(t, t1, max);
    assert s <= t1 by {
      assert t[..end][..|s|] == s;
    }
    NothingShorter(s, t1, max);
    NonZero(s, max);
    NoFieldFits(t, end, max);
  }

  lemma NonZero(s: seq<Byte>, max: nat)
    requires Unstarted(s)
    ensures Missing(s, max) != Some(0)
  {
    hide RequestLine, ParseRequest, Missing;
    if Missing(s, max) == Some(0) {
      NothingMissing(s, max);
      LineOfParse(s, max);
    }
  }

  lemma NothingMissing(s: seq<Byte>, max: nat)
    requires Missing(s, max) == Some(0)
    ensures ParseRequest(s, max).Ok?
  {
    hide ParseRequest, Missing;
    var c := RequestCompletes(s, max);
    assert s + c == s;
  }

  lemma LineOfParse(s: seq<Byte>, max: nat)
    requires ParseRequest(s, max).Ok?
    ensures !Unstarted(s)
  {
    hide RequestLine, Headers;
  }

  lemma LineInside(s: seq<Byte>, t: seq<Byte>)
    requires s <= t && Break(t, 0).Ok? && RequestLine(t, Break(t, 0).pos).Ok?
    requires RequestLine(t, Break(t, 0).pos).pos < |s|
    ensures !Unstarted(s)
  {
    hide RequestLine;
    RequestLinePrefix(t, Break(t, 0).pos, |s|);
    assert t[..|s|] == s;
  }

  /** The request line by itself, with an empty line behind it, is a request. */
  lemma LineAlone(t: seq<Byte>, t1: seq<Byte>, max: nat)
    requires Break(t, 0).Ok? && RequestLine(t, Break(t, 0).pos).Ok?
    requires t1 == t[..RequestLine(t, Break(t, 0).pos).pos] + [LF]
    ensures ParseRequest(t1, max).Ok? && ParseRequest(t1, max).pos == |t1|
  {
    hide RequestLine;
    var p := Break(t, 0).pos;
    var end := RequestLine(t, p).pos;
    var line := t[..end];
    RequestLinePrefix(t, p, end);
    RequestLineStable(line, t1, p);
    assert Break(t1, 0) == Break(t, 0);
  }

  lemma NoFieldFits(t: seq<Byte>, p: nat, max: nat)
    requires p <= |t| <= p + 1 && Headers(t, p, 0, max).Ok?
    ensures Headers(t, p, 0, max).value == []
  {
    hide HeaderLine;
  }
}
