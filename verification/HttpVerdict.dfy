/** All three verdicts of the request parser by the bytes: which are accepted, which are
    awaited, and which are refused. */
module HttpVerdict {
  import opened Bytes
  import opened Wrappers
  import opened HttpSyntax
  import opened HttpGrammar
  import opened HttpCompletion

  /** Bytes that no others complete, and that are awaited all the same, because the byte
      that is wrong has not been looked at: an empty method is noticed only behind the
      target, and a version only when nine bytes are there. */
  ghost predicate Undecided(s: seq<Byte>) {
    exists p :: LeadAt(s, p) && (EmptyMethodAt(s, p) || WrongVersionAt(s, p))
  }

  /** Spaces, some of a target, spaces, and nothing behind them. */
  ghost predicate EmptyMethodAt(s: seq<Byte>, p: nat) {
    exists a: nat, z: nat :: p < a && Spaces(s, p, a) && Targets(s, a, z) && Spaces(s, z, |s|)
  }

  /** Fewer than nine bytes of a version, which do not agree with "HTTP/1." and a digit. */
  ghost predicate WrongVersionAt(s: seq<Byte>, p: nat) {
    exists m: Slice, w: Slice, v: nat ::
      m.start == p && MethodAndTargetAt(s, m, w, v) && |s| < v + 9 && !VersionBegins(s, v)
  }

  predicate VersionBegins(s: seq<Byte>, v: nat) {
    && (forall i :: v <= i < |s| && i < v + 7 ==> s[i] == Ascii("HTTP/1.")[i - v])
    && (|s| == v + 8 ==> s[v + 7] in Ascii("0123456789"))
  }

  lemma VersionBeginsExact(s: seq<Byte>, v: nat)
    requires v <= |s| < v + 9
    ensures VersionBegins(s, v) <==> VersionAgrees(s, v)
  {
    assert Ascii("HTTP/1.") == VERSION_PREFIX;
    if |s| == v + 8 {
      DigitIn(s[v + 7]);
    }
  }

  lemma DigitIn(b: Byte)
    ensures b in Ascii("0123456789") <==> Digit(b)
  {
    if Digit(b) {
      DigitExact(b, b - 48);
    } else if b in Ascii("0123456789") {
      var v: nat :| v < 10 && b == Ascii("0123456789")[v];
      DigitExact(b, v);
    }
  }

  // ---------------------------------------------------------------- scans to the end

  lemma SpacesToEnd(s: seq<Byte>, p: nat)
    requires p <= |s|
    ensures Spaces(s, p, |s|) <==> SkipSpaces(s, p).Partial?
  {
    hide Scan;
    ScanStretch(s, p, AtNonSpace);
    if Spaces(s, p, |s|) {
      assert forall i :: p <= i < |s| ==> !Stops(AtNonSpace, s[i]);
      ScanUnique(s, p, AtNonSpace, |s|);
    }
    assert forall i :: p <= i < Scan(s, p, AtNonSpace) ==> !Stops(AtNonSpace, s[i]);
  }

  lemma TargetsToEnd(s: seq<Byte>, p: nat)
    requires p <= |s|
    ensures Targets(s, p, |s|) <==> Target(s, p).Partial?
  {
    hide Scan, IsTarget, Control;
    forall i | 0 <= i < |s|
      ensures Stops(AtPathEnd, s[i]) <==> !IsTarget(s[i])
    {
      ClassesExact(s[i]);
    }
    ScanStretch(s, p, AtPathEnd);
    if Targets(s, p, |s|) {
      ScanUnique(s, p, AtPathEnd, |s|);
    }
  }

  // ---------------------------------------------------------------- headers

  /** A header section without a future is refused, and only such. */
  lemma {:induction false} HeadersDecided(s: seq<Byte>, p: nat, n: nat, max: nat)
    requires p <= |s|
    ensures HeadersMissing(s, p, n, max) == None <==> Headers(s, p, n, max).Bad?
    decreases |s| - p
  {
    hide HeaderLine, LineMissing;
    if Break(s, p) == Ok(p, false) && n != max {
      var line := HeaderLine(s, p, n == 0);
      if line.Ok? {
        HeadersDecided(s, line.pos, n + 1, max);
      }
    }
  }

  // ---------------------------------------------------------------- the request line

  /** From the version on. */
  lemma VersionDecided(s: seq<Byte>, v: nat, max: nat)
    requires v <= |s|
    ensures VersionMissing(s, v, max) == None <==>
            || (|s| < v + 9 && !VersionBegins(s, v))
            || (|s| >= v + 9 && (Version(s, v).Bad? || Expected(s, v + 8).Bad?
                                 || (Expected(s, v + 8).Ok? && Headers(s, Expected(s, v + 8).pos, 0, max).Bad?)))
  {
    hide Headers, HeadersMissing, VersionBegins;
    if |s| < v + 9 {
      VersionBeginsExact(s, v);
    } else if Version(s, v).Ok? && Expected(s, v + 8).Ok? {
      HeadersDecided(s, Expected(s, v + 8).pos, 0, max);
    } else {
      VersionRefused(s, v);
    }
  }

  /** With nine bytes there, a version is decided, and by its bytes. */
  lemma VersionRefused(s: seq<Byte>, v: nat)
    requires v + 9 <= |s|
    ensures Version(s, v).Bad? <==> forall minor :: !VersionAt(s, v, minor)
    ensures !Version(s, v).Partial?
  {
    if minor :| VersionAt(s, v, minor) {
      VersionExact(s, v, minor);
    }
    if Version(s, v).Ok? {
      VersionExact(s, v, Version(s, v).value);
    }
  }

  /** The parse behind a line break that ends at `p`. */
  function RequestFrom(s: seq<Byte>, p: nat, max: nat): Parse<Message>
    requires p <= |s|
  {
    match RequestLine(s, p)
    case Bad => Bad
    case Partial => Partial
    case Ok(p1, line) =>
      match Headers(s, p1, 0, max)
      case Bad => Bad
      case Partial => Partial
      case Ok(end, hs) => Ok(end, Request(line.method_, line.path, line.minor, hs))
  }

  /** With method and target there and nine bytes of version, everything is decided. */
  lemma LineDecided(s: seq<Byte>, p: nat, max: nat)
    requires p <= |s| && MethodAndTarget(s, p).Ok?
    ensures var v := MethodAndTarget(s, p).pos;
            && (|s| < v + 9 ==> RequestFrom(s, p, max).Partial?)
            && (|s| >= v + 9 ==>
                  (VersionMissing(s, v, max) == None <==> RequestFrom(s, p, max).Bad?))
  {
    hide MethodAndTarget, Headers, VersionMissing;
    var v := MethodAndTarget(s, p).pos;
    VersionDecided(s, v, max);
    if |s| >= v + 9 {
      VersionRefused(s, v);
    }
  }

  lemma MethodMissingIs(s: seq<Byte>, p: nat, max: nat)
    requires p <= |s| && MethodAndTarget(s, p).Ok?
    ensures MethodMissing(s, p, max) == VersionMissing(s, MethodAndTarget(s, p).pos, max)
  {
    hide Scan, VersionMissing, Token, Target, SkipSpaces;
  }

  /** Without method and target: refused, or awaited; and awaited without a future exactly
      with an empty method. */
  lemma OpenLine(s: seq<Byte>, p: nat, max: nat)
    requires p <= |s| && !MethodAndTarget(s, p).Ok?
    ensures var r := MethodAndTarget(s, p);
            && (RequestFrom(s, p, max).Bad? <==> r.Bad?) && (RequestFrom(s, p, max).Partial? <==> r.Partial?)
            && (r.Bad? ==> MethodMissing(s, p, max) == None)
            && (r.Partial? ==> (MethodMissing(s, p, max) == None <==> EmptyMethodAt(s, p)))
  {
    hide Token, Target, SkipSpaces, VersionMissing;
    var m := Token(s, p, SP);
    if MethodAndTarget(s, p).Partial? {
      if m.Ok? && m.value.len == 0 {
        EmptyMethod(s, p);
      } else {
        NoEmptyMethod(s, p);
      }
    }
  }

  lemma EmptyMethod(s: seq<Byte>, p: nat)
    requires p <= |s| && Token(s, p, SP).Ok? && Token(s, p, SP).value.len == 0
    requires MethodAndTarget(s, p).Partial?
    ensures EmptyMethodAt(s, p)
  {
    hide Target, SkipSpaces, Scan, IsTarget;
    ColonAndSpace();
    var gap := SkipSpaces(s, p + 1);
    SpacesToEnd(s, p + 1);
    if gap.Partial? {
      SpacesFrom(s, p, |s|);
      Nothing(s);
      assert Spaces(s, p, |s|) && Targets(s, |s|, |s|) && Spaces(s, |s|, |s|);
    } else {
      var a := gap.pos;
      SpaceStretch(s, p + 1, a);
      SpacesFrom(s, p, a);
      var w := Target(s, a);
      if w.Partial? {
        TargetsToEnd(s, a);
        Nothing(s);
        assert Spaces(s, p, a) && Targets(s, a, |s|) && Spaces(s, |s|, |s|);
      } else {
        TargetStretch(s, a, w.pos);
        SpacesToEnd(s, w.pos + 1);
        SpacesFrom(s, w.pos, |s|);
        assert Spaces(s, p, a) && Targets(s, a, w.pos) && Spaces(s, w.pos, |s|);
      }
    }
  }

  lemma Nothing(s: seq<Byte>)
    ensures Targets(s, |s|, |s|) && Spaces(s, |s|, |s|)
  {
  }

  lemma NoEmptyMethod(s: seq<Byte>, p: nat)
    requires p <= |s| && !(Token(s, p, SP).Ok? && Token(s, p, SP).value.len == 0)
    ensures !EmptyMethodAt(s, p)
  {
    hide Scan;
    if a: nat, z: nat :| p < a && Spaces(s, p, a) && Targets(s, a, z) && Spaces(s, z, |s|) {
      assert s[p] == SP;
      ScanUnique(s, p, AtTokenEnd(SP), p);
    }
  }

  lemma NotBoth(s: seq<Byte>, p: nat)
    requires p <= |s| && MethodAndTarget(s, p).Ok?
    ensures !EmptyMethodAt(s, p)
    ensures WrongVersionAt(s, p) <==>
            |s| < MethodAndTarget(s, p).pos + 9 && !VersionBegins(s, MethodAndTarget(s, p).pos)
  {
    hide Token, Target, SkipSpaces, MethodAndTargetAt, VersionBegins;
    NoEmptyMethod(s, p);
    var r := MethodAndTarget(s, p);
    MethodAndTargetWritten(s, p);
    forall m: Slice, w: Slice, v: nat | m.start == p && MethodAndTargetAt(s, m, w, v)
      ensures v == r.pos
    {
      MethodAndTargetRead(s, m, w, v);
    }
  }

  lemma NoWrongVersion(s: seq<Byte>, p: nat)
    requires p <= |s| && !MethodAndTarget(s, p).Ok?
    ensures !WrongVersionAt(s, p)
  {
    hide MethodAndTarget, MethodAndTargetAt, VersionBegins;
    if m: Slice, w: Slice, v: nat :| && m.start == p && MethodAndTargetAt(s, m, w, v)
                                     && |s| < v + 9 && !VersionBegins(s, v) {
      MethodAndTargetRead(s, m, w, v);
    }
  }

  lemma FromIsParse(s: seq<Byte>, max: nat)
    requires Break(s, 0).Ok?
    ensures ParseRequest(s, max) == RequestFrom(s, Break(s, 0).pos, max)
  {
    hide RequestLine, Headers;
  }

  /** The lead of undecided bytes is the one the parser skips. */
  lemma LeadIs(s: seq<Byte>, p: nat)
    requires LeadAt(s, p) && (EmptyMethodAt(s, p) || WrongVersionAt(s, p))
    ensures Break(s, 0).Ok? && Break(s, 0).pos == p
  {
    hide LeadAt, MethodAndTargetAt, VersionBegins;
    if EmptyMethodAt(s, p) {
      var a: nat, z: nat :| p < a && Spaces(s, p, a) && Targets(s, a, z) && Spaces(s, z, |s|);
      assert s[p] == SP;
    } else {
      var m: Slice, w: Slice, v: nat :| m.start == p && MethodAndTargetAt(s, m, w, v)
                                        && |s| < v + 9 && !VersionBegins(s, v);
      MethodStartsPlain(s, m, w, v);
    }
    LeadExact(s, p);
  }

  lemma LeadOf(s: seq<Byte>)
    requires Break(s, 0).Ok?
    ensures LeadAt(s, Break(s, 0).pos)
  {
    var p := Break(s, 0).pos;
    if p > 0 {
      BreakExact(s, 0, p);
      assert s[0..p] == s[..p];
    }
  }

  /** The verdict on every byte string: accepted with its slices if and only if it is laid
      out as a request; otherwise awaited if and only if some bytes complete it, or it is
      undecided; otherwise refused. */
  lemma VerdictExact(s: seq<Byte>, max: nat)
    ensures ParseRequest(s, max).Ok? <==> exists r, q :: RequestAt(s, r, q) && |r.headers| <= max
    ensures ParseRequest(s, max).Partial? <==>
            && !ParseRequest(s, max).Ok?
            && ((exists t :: s <= t && ParseRequest(t, max).Ok?) || Undecided(s))
  {
    hide ParseRequest, RequestAt, Missing, Undecided;
    Accepted(s, max);
    CompletableExactly(s, max);
    if !ParseRequest(s, max).Ok? {
      Awaited(s, max);
    }
  }

  lemma Accepted(s: seq<Byte>, max: nat)
    ensures ParseRequest(s, max).Ok? <==> exists r, q :: RequestAt(s, r, q) && |r.headers| <= max
  {
    hide ParseRequest, RequestAt;
    if ParseRequest(s, max).Ok? {
      RequestWritten(s, max);
    }
    if r, q :| RequestAt(s, r, q) && |r.headers| <= max {
      RequestRead(s, r, q, max);
    }
  }

  lemma Awaited(s: seq<Byte>, max: nat)
    requires !ParseRequest(s, max).Ok?
    ensures ParseRequest(s, max).Partial? <==> Missing(s, max).Some? || Undecided(s)
  {
    hide RequestFrom, MethodMissing, MethodAndTarget, EmptyMethodAt, WrongVersionAt, LeadAt, ParseRequest;
    hide VersionMissing;
    if Break(s, 0).Ok? {
      var p := Break(s, 0).pos;
      FromIsParse(s, max);
      LeadOf(s);
      UndecidedIs(s);
      if MethodAndTarget(s, p).Ok? {
        LineDecided(s, p, max);
        MethodMissingIs(s, p, max);
        NotBoth(s, p);
        VersionDecided(s, MethodAndTarget(s, p).pos, max);
      } else {
        OpenLine(s, p, max);
        NoWrongVersion(s, p);
        if MethodAndTarget(s, p).Bad? {
          BadIsNotOpen(s, p);
        }
      }
    } else {
      NotUndecided(s);
      NoBreak(s, max);
    }
  }

  lemma BadIsNotOpen(s: seq<Byte>, p: nat)
    requires p <= |s| && MethodAndTarget(s, p).Bad?
    ensures !EmptyMethodAt(s, p)
  {
    hide Scan, IsTarget, Target, SkipSpaces;
    if a: nat, z: nat :| p < a && Spaces(s, p, a) && Targets(s, a, z) && Spaces(s, z, |s|) {
      assert s[p] == SP;
      ScanUnique(s, p, AtTokenEnd(SP), p);
      OpenBehind(s, p, a, z);
    }
  }

  /** With an empty method, such bytes leave the scans at the end. */
  lemma OpenBehind(s: seq<Byte>, p: nat, a: nat, z: nat)
    requires p < a && Spaces(s, p, a) && Targets(s, a, z) && Spaces(s, z, |s|)
    requires Token(s, p, SP) == Ok(p, Slice(p, 0))
    ensures MethodAndTarget(s, p).Partial?
  {
    hide Scan, IsTarget, Target, SkipSpaces, Token;
    if a == z {
      SpacesToEnd(s, p + 1);
    } else {
      TargetIsNoSpace(s[a]);
      SpaceStretch(s, p + 1, a);
      if z == |s| {
        TargetsToEnd(s, a);
      } else {
        TargetStretch(s, a, z);
        SpacesToEnd(s, z + 1);
      }
    }
  }

  lemma UndecidedIs(s: seq<Byte>)
    requires Break(s, 0).Ok?
    ensures Undecided(s) <==> EmptyMethodAt(s, Break(s, 0).pos) || WrongVersionAt(s, Break(s, 0).pos)
  {
    hide EmptyMethodAt, WrongVersionAt, LeadAt;
    LeadOf(s);
    forall p | LeadAt(s, p) && (EmptyMethodAt(s, p) || WrongVersionAt(s, p))
      ensures p == Break(s, 0).pos
    {
      LeadIs(s, p);
    }
  }

  lemma NotUndecided(s: seq<Byte>)
    requires !Break(s, 0).Ok?
    ensures !Undecided(s)
  {
    hide EmptyMethodAt, WrongVersionAt, LeadAt;
    if p :| LeadAt(s, p) && (EmptyMethodAt(s, p) || WrongVersionAt(s, p)) {
      LeadIs(s, p);
    }
  }

  lemma NoBreak(s: seq<Byte>, max: nat)
    requires !Break(s, 0).Ok?
    ensures ParseRequest(s, max).Partial? <==> Missing(s, max).Some?
  {
    hide MethodMissing;
  }
}
