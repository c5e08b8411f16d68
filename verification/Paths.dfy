/** Node paths: the raw string tests the client performs, and the segment tree they stand for. */
module Paths {
  import opened Text

  // validQueryPath
  predicate ValidSegment(segment: string) {
    && segment != "" && segment != "." && segment != ".."
    && forall i | 0 <= i < |segment| :: segment[i] >= ' '
  }

  predicate ValidPath(path: string) {
    if path == "/" then true
    else if !("/" <= path) || path[|path| - 1] == '/' then false
    else forall segment | segment in Split(path[1..]) :: ValidSegment(segment)
  }

  // The segment tree: the root is the empty sequence.
  function Segments(path: string): seq<string> {
    if path == "/" || path == "" then [] else Split(path[1..])
  }

  predicate TreeSegment(segment: string) {
    ValidSegment(segment) && !Contains(segment, '/')
  }

  function Render(segments: seq<string>): string {
    if segments == [] then "/" else Slashed(segments)
  }

  // The path is the scope, or begins with the scope and a slash (just the slash for the root).
  predicate Covers(scope: string, path: string) {
    path == scope || TrimSlash(scope) + "/" <= path
  }

  // The test used for removed roots: no trailing slash is trimmed.
  predicate CoversRemoved(root: string, path: string) {
    path == root || root + "/" <= path
  }

  // The slash-count depth of readQuerySnapshot.
  function SnapshotDepth(scope: string, path: string): int {
    if path == "/" then 0
    else Count(path, '/') - Count(scope, '/') + if scope == "/" then 1 else 0
  }

  // The slash-count depth of queryPathInView.
  function ViewDepth(scope: string, path: string): int {
    Count(path, '/') - Count(scope, '/') + if scope == "/" && path != "/" then 1 else 0
  }

  // The path cut at its last slash; nothing left means the root.
  function Parent(path: string): string {
    var i := LastIndex(path, '/');
    if i <= 0 then "/" else path[..i]
  }

  // A slash and the first segment.
  function Flow(path: string): string
    requires path != ""
  {
    "/" + Split(path[1..])[0]
  }

  // --- the string form and the tree form are in bijection

  lemma ValidSegments(path: string)
    requires ValidPath(path)
    ensures path != ""
    ensures forall segment | segment in Segments(path) :: TreeSegment(segment)
    ensures Render(Segments(path)) == path
    ensures path != "/" ==> Segments(path) != []
  {
    if path != "/" {
      SlashedSplit(path[1..]);
      SplitParts(path[1..]);
      assert path == "/" + path[1..];
    }
  }

  lemma RenderedIsValid(segments: seq<string>)
    requires forall segment | segment in segments :: TreeSegment(segment)
    ensures ValidPath(Render(segments))
    ensures Segments(Render(segments)) == segments
  {
    if segments != [] {
      var path := Render(segments);
      var last := segments[|segments| - 1];
      SplitSlashed(segments);
      assert path[0] == '/';
      assert segments[..|segments| - 1] + [last] == segments;
      SlashedSnoc(segments[..|segments| - 1], last);
      assert last in segments && TreeSegment(last);
      var init := Slashed(segments[..|segments| - 1]) + "/";
      assert path == init + last;
      assert path[|path| - 1] == last[|last| - 1];
      assert path != "/";
    }
  }

  // --- prefix tests

  lemma {:induction false} SlashedPrefix(s: seq<string>, p: seq<string>)
    requires forall segment | segment in s :: TreeSegment(segment)
    requires forall segment | segment in p :: TreeSegment(segment)
    ensures Slashed(s) + "/" <= Slashed(p) <==> s <= p && s != p
  {
    if s == [] || p == [] {
      if s != [] { assert |Slashed(s)| > 0; }
    } else {
      SlashedPrefix(s[1..], p[1..]);
      PrefixByHead(s, p);
      assert TreeSegment(s[0]) && TreeSegment(p[0]);
      HeadSegment(s[0], Slashed(s[1..]) + "/", p[0], Slashed(p[1..]));
      var left, right := s[0] + (Slashed(s[1..]) + "/"), p[0] + Slashed(p[1..]);
      assert Slashed(s) + "/" == "/" + left && Slashed(p) == "/" + right;
      PrefixAfterSlash(left, right);
    }
  }

  lemma PrefixByHead<T>(s: seq<T>, p: seq<T>)
    requires s != [] && p != []
    ensures s <= p <==> s[0] == p[0] && s[1..] <= p[1..]
    ensures s == p <==> s[0] == p[0] && s[1..] == p[1..]
  {
    assert s == [s[0]] + s[1..] && p == [p[0]] + p[1..];
    if s <= p { assert s[1..] == p[..|s|][1..] == p[1..][..|s| - 1]; }
    if s[0] == p[0] && s[1..] <= p[1..] { assert p[..|s|] == [p[0]] + p[1..][..|s| - 1]; }
  }

  lemma PrefixAfterSlash(left: string, right: string)
    ensures "/" + left <= "/" + right <==> left <= right
  {
    assert ("/" + left)[1..] == left && ("/" + right)[1..] == right;
    PrefixByHead("/" + left, "/" + right);
  }

  // Two slash-free heads followed by slashed tails agree as strings only part by part.
  lemma HeadSegment(a: string, restA: string, b: string, restB: string)
    requires !Contains(a, '/') && !Contains(b, '/')
    requires restA != "" && restA[0] == '/'
    requires restB == "" || restB[0] == '/'
    ensures a + restA <= b + restB <==> a == b && restA <= restB
  {
    var left, right := a + restA, b + restB;
    if left <= right {
      assert left[|a|] == '/' && right[|a|] == '/';
      assert |a| >= |b|;
      assert restB != "" ==> right[|b|] == '/';
      assert forall i | 0 <= i < |a| :: right[i] == a[i];
      assert |a| <= |b|;
      assert a == left[..|a|] == right[..|a|] == b;
      assert restA == left[|a|..] && restB == right[|b|..];
    }
    if a == b && restA <= restB {
      assert right[..|left|] == b + restB[..|restA|];
    }
  }

  lemma TrimmedScope(scope: string)
    requires ValidPath(scope)
    ensures TrimSlash(scope) == Slashed(Segments(scope))
  {
    ValidSegments(scope);
  }

  /** The raw prefix test of the client decides exactly the prefix order on segments. */
  lemma CoversIsPrefix(scope: string, path: string)
    requires ValidPath(scope) && ValidPath(path)
    ensures Covers(scope, path) <==> Segments(scope) <= Segments(path)
  {
    ValidSegments(scope);
    ValidSegments(path);
    TrimmedScope(scope);
    SlashedPrefix(Segments(scope), Segments(path));
  }

  /** For a removed root, which is never "/", the second spelling of the test is the same relation. */
  lemma CoversRemovedIsCovers(root: string, path: string)
    requires ValidPath(root) && root != "/"
    ensures CoversRemoved(root, path) <==> Covers(root, path)
  {
  }

  // --- depth, parent, flow

  lemma {:induction false} SlashCount(segments: seq<string>)
    requires forall segment | segment in segments :: TreeSegment(segment)
    ensures Count(Slashed(segments), '/') == |segments|
  {
    if segments != [] {
      SlashCount(segments[1..]);
      assert TreeSegment(segments[0]);
      CountAbsent(segments[0], '/');
      CountConcat("/", segments[0], '/');
      CountConcat("/" + segments[0], Slashed(segments[1..]), '/');
      assert Count("/", '/') == Count("", '/') + 1;
    }
  }

  /** Both slash-count depths are the number of segments below the scope. */
  lemma DepthIsSegmentDistance(scope: string, path: string)
    requires ValidPath(scope) && ValidPath(path) && Covers(scope, path)
    ensures SnapshotDepth(scope, path) == |Segments(path)| - |Segments(scope)|
    ensures ViewDepth(scope, path) == |Segments(path)| - |Segments(scope)|
  {
    CoversIsPrefix(scope, path);
    ValidSegments(scope);
    ValidSegments(path);
    SlashCount(Segments(scope));
    SlashCount(Segments(path));
    assert Count("/", '/') == Count("", '/') + 1;
  }

  lemma ParentOfSlashed(init: seq<string>, last: string)
    requires !Contains(last, '/')
    ensures Parent(Slashed(init) + "/" + last) == Render(init)
  {
    var body := Slashed(init);
    var path := body + "/" + last;
    assert path == body + ['/'] + last;
    LastIndexAt(body, last, '/');
    assert path[..|body|] == body;
    assert init != [] ==> |body| > 0;
  }

  /** Cutting at the last slash drops the last segment. */
  lemma ParentDropsLast(path: string)
    requires ValidPath(path) && path != "/"
    ensures ValidPath(Parent(path))
    ensures Segments(Parent(path)) == Segments(path)[..|Segments(path)| - 1]
  {
    ValidSegments(path);
    var p := Segments(path);
    var init, last := p[..|p| - 1], p[|p| - 1];
    assert p == init + [last];
    assert TreeSegment(last);
    SlashedSnoc(init, last);
    ParentOfSlashed(init, last);
    RenderedIsValid(init);
  }

  /** The flow path is the first segment. */
  lemma FlowIsFirst(path: string)
    requires ValidPath(path) && path != "/"
    ensures ValidPath(Flow(path)) && Flow(path) != "/"
    ensures Segments(Flow(path)) == Segments(path)[..1]
  {
    ValidSegments(path);
    var p := Segments(path);
    assert p[..1] == [p[0]];
    assert Slashed([p[0]]) == "/" + p[0] + Slashed([]);
    assert TreeSegment(p[0]);
    RenderedIsValid([p[0]]);
    assert Flow(path) == Render([p[0]]);
  }

  // --- the order laws the cache proofs use, still on raw strings

  lemma CoversTransitive(a: string, b: string, c: string)
    requires ValidPath(a) && ValidPath(b) && ValidPath(c)
    requires Covers(a, b) && Covers(b, c)
    ensures Covers(a, c)
  {
    CoversIsPrefix(a, b);
    CoversIsPrefix(b, c);
    CoversIsPrefix(a, c);
  }

  lemma CoversAntisymmetric(a: string, b: string)
    requires ValidPath(a) && ValidPath(b)
    requires Covers(a, b) && Covers(b, a)
    ensures a == b
  {
    CoversIsPrefix(a, b);
    CoversIsPrefix(b, a);
    ValidSegments(a);
    ValidSegments(b);
  }

  /** Whatever strictly covers a path covers its parent. */
  lemma ParentIsBetween(ancestor: string, path: string)
    requires ValidPath(ancestor) && ValidPath(path) && path != ancestor && Covers(ancestor, path)
    ensures path != "/" && ValidPath(Parent(path))
    ensures Covers(ancestor, Parent(path)) && Covers(Parent(path), path)
    ensures |Segments(Parent(path))| == |Segments(path)| - 1
  {
    CoversIsPrefix(ancestor, path);
    ValidSegments(ancestor);
    ValidSegments(path);
    assert Segments(ancestor) != Segments(path);
    ParentDropsLast(path);
    CoversIsPrefix(ancestor, Parent(path));
    CoversIsPrefix(Parent(path), path);
  }

  lemma FlowCovers(path: string)
    requires ValidPath(path) && path != "/"
    ensures ValidPath(Flow(path)) && Flow(path) != "/"
    ensures Covers(Flow(path), path)
    ensures |Segments(Flow(path))| == 1
  {
    FlowIsFirst(path);
    CoversIsPrefix(Flow(path), path);
    ValidSegments(path);
  }
}
