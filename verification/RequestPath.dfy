/** From request target to file path (srclib/http.c): the traversal check, the cut at
    the query, and the path that is opened below the server root. */
module RequestPath {
  import opened Bytes
  import opened Wrappers

  const MAX_PATH: nat := 132
  const DOT: Byte := 46
  const SLASH: Byte := 47
  const QUERY: Byte := 63
  const BACKSLASH: Byte := 92

  const INDEX: seq<Byte> := Ascii("/index.html")

  /** What the check looks for at position `i`. */
  predicate Suspicious(url: seq<Byte>, i: nat)
    requires i + 1 < |url|
  {
    || url[i] == BACKSLASH
    || (url[i] == DOT && url[i + 1] == DOT)
    || (url[i] == SLASH && url[i + 1] == SLASH)
  }

  predicate Accepted(url: seq<Byte>) {
    forall i :: 0 <= i && i + 1 < |url| ==> !Suspicious(url, i)
  }

  ghost predicate Contains(url: seq<Byte>, text: seq<Byte>) {
    exists i :: 0 <= i <= |url| - |text| && Here(url, i, text)
  }

  predicate Here(url: seq<Byte>, i: nat, text: seq<Byte>) {
    i + |text| <= |url| && url[i..i + |text|] == text
  }

  /** The targets that pass, by what they contain: no "..", no "//", and no backslash before
      the last byte. All others do. */
  lemma AcceptedExactly(url: seq<Byte>)
    ensures Accepted(url) <==>
            && !Contains(url, Ascii("..")) && !Contains(url, Ascii("//"))
            && forall i :: 0 <= i < |url| - 1 ==> url[i] != '\\' as int
  {
    forall i | 0 <= i && i + 1 < |url|
      ensures Suspicious(url, i) <==>
              Here(url, i, Ascii("..")) || Here(url, i, Ascii("//")) || url[i] == '\\' as int
    {
      assert Ascii("..") == [46, 46] && Ascii("//") == [47, 47];
      assert url[i..i + 2] == [url[i], url[i + 1]];
    }
  }

  /** `check_path_traversal`. */
  method CheckPathTraversal(url: seq<Byte>) returns (bad: bool)
    ensures bad <==> !Accepted(url)
  {
    var i := 0;
    while i < |url| - 1
      invariant 0 <= i
      invariant forall j :: 0 <= j < i && j + 1 < |url| ==> !Suspicious(url, j)
    {
      if url[i] == BACKSLASH {
        assert Suspicious(url, i);
        return true;
      }
      if url[i] == DOT && url[i + 1] == DOT {
        assert Suspicious(url, i);
        return true;
      }
      if url[i] == SLASH && url[i + 1] == SLASH {
        assert Suspicious(url, i);
        return true;
      }
      assert !Suspicious(url, i);
      i := i + 1;
    }
    return false;
  }

  /** The target split at its first question mark, if there is one. */
  ghost predicate SplitAtQuery(url: seq<Byte>, path: seq<Byte>, args: Option<seq<Byte>>) {
    && QUERY !in path
    && match args
       case None => url == path
       case Some(a) => url == path + [QUERY] + a
  }

  /** The query split of `process_get`: the loop shortens its own bound. */
  method SplitQuery(url: seq<Byte>) returns (path: seq<Byte>, args: Option<seq<Byte>>)
    ensures SplitAtQuery(url, path, args)
  {
    var size := |url|;
    args := None;
    var i := 0;
    while i < size
      invariant 0 <= size <= |url|
      invariant i <= size || (args.Some? && i == size + 1)
      invariant QUERY !in url[..if i <= size then i else size]
      invariant args == None ==> size == |url| && i <= size
      invariant args.Some? ==> i == size + 1 && url == url[..size] + [QUERY] + args.value
      decreases |url| - i
    {
      if url[i] == QUERY {
        args := Some(url[i + 1..size]);
        assert url == url[..i] + [QUERY] + url[i + 1..];
        assert url[i + 1..size] == url[i + 1..];
        size := i;
      } else {
        assert url[..i + 1] == url[..i] + [url[i]];
      }
      i := i + 1;
    }
    path := url[..size];
    assert args == None ==> url[..size] == url;
  }

  /** The path a target stands for; too long a target has none. */
  function PathOf(target: seq<Byte>): Option<seq<Byte>> {
    if |target| > MAX_PATH - 1 then None
    else if target == [SLASH] then Some(INDEX)
    else Some(target)
  }

  /** `build_path`: copies into a buffer of MAX_PATH bytes and terminates it. */
  method BuildPath(target: seq<Byte>, path: array<Byte>) returns (ret: int, len: nat)
    requires path.Length == MAX_PATH
    modifies path
    ensures ret == if |target| >= 132 then -2 else 0
    ensures ret == 0 ==> len < 132 && path[len] == 0
    ensures ret == 0 ==> path[..len] == if target == Ascii("/") then Ascii("/index.html") else target
    ensures ret == 0 ==> PathOf(target) == Some(path[..len])
    ensures ret != 0 ==> PathOf(target) == None && path[..] == old(path[..])
  {
    if |target| > MAX_PATH - 1 {
      return -2, 0;
    }
    assert Ascii("/") == [SLASH];
    var text := if |target| == 1 && target[0] == SLASH then INDEX else target;
    forall i | 0 <= i < |text| {
      path[i] := text[i];
    }
    path[|text|] := 0;
    assert path[..|text|] == text;
    return 0, |text|;
  }

  /** The part of a target before its first question mark. */
  function BeforeQuery(url: seq<Byte>): (target: seq<Byte>)
    ensures '?' as int !in target
    ensures target == url || target + Ascii("?") <= url
  {
    assert Ascii("?") == [QUERY];
    if url == [] || url[0] == QUERY then []
    else [url[0]] + BeforeQuery(url[1..])
  }

  lemma SplitTail(url: seq<Byte>, target: seq<Byte>, args: Option<seq<Byte>>)
    requires SplitAtQuery(url, target, args) && target != []
    ensures url != [] && SplitAtQuery(url[1..], target[1..], args)
  {
    if args.Some? {
      assert url[1..] == target[1..] + [QUERY] + args.value;
    }
  }

  lemma {:induction false} SplitIsBefore(url: seq<Byte>, target: seq<Byte>, args: Option<seq<Byte>>)
    requires SplitAtQuery(url, target, args)
    ensures target == BeforeQuery(url)
    decreases |url|
  {
    if target != [] {
      assert url[0] == target[0] && url[0] != QUERY;
      SplitTail(url, target, args);
      SplitIsBefore(url[1..], target[1..], args);
      assert target == [target[0]] + target[1..];
    }
  }

  /** The path handling at the head of `process_get` and `process_post`: the status a target
      is refused with, or 0 and the path that is opened. A target passes unchanged up to its
      first question mark; only "/" is replaced. */
  method ResolveTarget(url: seq<Byte>, path: array<Byte>) returns (status: nat, len: nat)
    requires path.Length == MAX_PATH
    modifies path
    ensures status == 403 <==>
              || Contains(url, Ascii("..")) || Contains(url, Ascii("//"))
              || exists i :: 0 <= i < |url| - 1 && url[i] == '\\' as int
    ensures status == 403 || status == if |BeforeQuery(url)| >= 132 then 400 else 0
    ensures status == 0 ==>
              && len < 132 && path[len] == 0
              && path[..len] == if BeforeQuery(url) == Ascii("/") then Ascii("/index.html") else BeforeQuery(url)
    ensures status == 0 && url != [] && url[0] == '/' as int ==>
              && len > 0 && path[0] == '/' as int
              && Contained(Segments(path[..len], 1)) && Walk(Segments(path[..len], 1), 0).Some?
  {
    hide Suspicious, Contained, Segments, Walk;
    AcceptedExactly(url);
    var bad := CheckPathTraversal(url);
    if bad {
      return 403, 0;
    }
    var target, args := SplitQuery(url);
    SplitIsBefore(url, target, args);
    var ret;
    ret, len := BuildPath(target, path);
    if ret == -2 {
      return 400, 0;
    }
    if url != [] && url[0] == SLASH {
      PathStaysBelowRoot(url, target, args);
      assert path[..len][0] == path[0];
    }
    return 0, len;
  }

  // ---------------------------------------------------------------- containment

  /** Path components from `i` on, separated by slashes. */
  function Segments(p: seq<Byte>, i: nat): (segs: seq<seq<Byte>>)
    requires i <= |p|
    ensures segs != []
    decreases |p| - i
  {
    var j := NextSlash(p, i);
    if j == |p| then [p[i..]] else [p[i..j]] + Segments(p, j + 1)
  }

  function NextSlash(p: seq<Byte>, i: nat): (j: nat)
    requires i <= |p|
    ensures i <= j <= |p| && (j < |p| ==> p[j] == SLASH)
    decreases |p| - i
  {
    if i == |p| || p[i] == SLASH then i else NextSlash(p, i + 1)
  }

  /** Depth below the root after walking the components; none if the walk ever leaves
      the root upwards. */
  function Walk(segs: seq<seq<Byte>>, depth: nat): Option<nat>
    decreases |segs|
  {
    if segs == [] then Some(depth)
    else if segs[0] == [DOT, DOT] then
      if depth == 0 then None else Walk(segs[1..], depth - 1)
    else if segs[0] == [] || segs[0] == [DOT] then Walk(segs[1..], depth)
    else Walk(segs[1..], depth + 1)
  }

  predicate Contained(segs: seq<seq<Byte>>) {
    && (forall k :: 0 <= k < |segs| ==> segs[k] != [DOT, DOT])
    && (forall k :: 0 <= k < |segs| - 1 ==> segs[k] != [])
  }

  lemma {:induction false} SegmentsContained(p: seq<Byte>, i: nat)
    requires Accepted(p) && 0 < i <= |p| && p[i - 1] == SLASH
    ensures Contained(Segments(p, i))
    decreases |p| - i
  {
    var j := NextSlash(p, i);
    assert i + 1 < |p| ==> !Suspicious(p, i);
    assert j == i + 2 ==> p[i..j] == [p[i], p[i + 1]];
    if j < |p| {
      SegmentsContained(p, j + 1);
      var more := Segments(p, j + 1);
      assert !Suspicious(p, i - 1);
      var segs := [p[i..j]] + more;
      assert forall k :: 1 <= k < |segs| ==> segs[k] == more[k - 1];
    }
  }

  lemma {:induction false} ContainedWalks(segs: seq<seq<Byte>>, depth: nat)
    requires forall k :: 0 <= k < |segs| ==> segs[k] != [DOT, DOT]
    ensures Walk(segs, depth).Some? && Walk(segs, depth).value >= depth
    decreases |segs|
  {
    if segs != [] {
      assert segs[0] != [DOT, DOT];
      assert forall k :: 0 <= k < |segs[1..]| ==> segs[1..][k] == segs[k + 1];
      ContainedWalks(segs[1..], if segs[0] == [] || segs[0] == [DOT] then depth else depth + 1);
    }
  }

  /** Lexical containment: whatever target starting with a slash passes the check, the
      path built from it, opened without its leading slash, has no ".." component, no
      empty component but the last, and never leads above the root. */
  lemma PathStaysBelowRoot(url: seq<Byte>, target: seq<Byte>, args: Option<seq<Byte>>)
    requires url != [] && url[0] == SLASH && Accepted(url)
    requires SplitAtQuery(url, target, args) && PathOf(target).Some?
    ensures var p := PathOf(target).value;
            && p != [] && p[0] == SLASH
            && Contained(Segments(p, 1))
            && Walk(Segments(p, 1), 0).Some?
  {
    var p := PathOf(target).value;
    assert target <= url && target != [] && target[0] == SLASH by {
      if args.Some? {
        assert url == target + ([QUERY] + args.value);
      }
    }
    if target == [SLASH] {
      assert forall i :: 0 <= i && i + 1 < |INDEX| ==> !Suspicious(INDEX, i);
    } else {
      assert forall i :: 0 <= i && i + 1 < |target| ==> Suspicious(target, i) == Suspicious(url, i);
    }
    SegmentsContained(p, 1);
    ContainedWalks(Segments(p, 1), 0);
  }
}
