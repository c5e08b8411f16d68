/** The contents of one published view, and what every published view satisfies. */
module Views {
  import opened Wrappers
  import opened Paths
  import opened Slices
  import opened Documents

  datatype Header = Header(
    sessionID: string, queryID: string, snapshotID: string, asOf: Stamp, expiresAt: Stamp,
    rootName: string, scopePath: string, depth: Option<int>, revision: int)

  datatype View = View(
    header: Header,
    nodes: map<string, QueryNode>, overrides: map<string, QueryNode>,
    baseBytes: int, estimatedBytes: int, order: seq<string>,
    flowGenerations: map<string, string>, staleScopes: seq<string>)

  type NodeMap = map<string, QueryNode>

  const ZERO_NODE := QueryNode("", "", "", "", false, None)

  // QuerySnapshot.Node
  function Lookup(v: View, path: string): Option<QueryNode> {
    if path in v.overrides then Some(v.overrides[path])
    else if path in v.nodes then Some(v.nodes[path])
    else None
  }

  // The node QuerySnapshot.Node returns whether or not there is one.
  function NodeOrZero(v: View, path: string): QueryNode {
    var found := Lookup(v, path);
    if found.Some? then found.value else ZERO_NODE
  }

  // The simple map a view stands for.
  function Table(v: View): NodeMap {
    v.nodes + v.overrides
  }

  // QuerySnapshot.IsStale
  predicate StaleIn(scopes: seq<string>, path: string) {
    exists scope | scope in scopes :: Covers(scope, path)
  }

  predicate IsStale(v: View, path: string) {
    StaleIn(v.staleScopes, path)
  }

  // queryPathInView
  predicate InView(header: Header, path: string) {
    && Covers(header.scopePath, path)
    && (header.depth.Some? ==> ViewDepth(header.scopePath, path) <= header.depth.value)
  }

  /** In the selection of a view, as a statement about segments. */
  ghost predicate InSelection(header: Header, path: string) {
    var scope, at := Segments(header.scopePath), Segments(path);
    scope <= at && (header.depth.Some? ==> |at| - |scope| <= header.depth.value)
  }

  /** The raw test says exactly that the path extends the scope by at most the depth. */
  lemma InViewExactly(header: Header, path: string)
    requires ValidPath(header.scopePath) && ValidPath(path)
    ensures InView(header, path) <==> InSelection(header, path)
  {
    CoversIsPrefix(header.scopePath, path);
    if Covers(header.scopePath, path) { DepthIsSegmentDistance(header.scopePath, path); }
  }

  // --- byte accounting

  // queryNodeSize
  function NodeSize(node: QueryNode): nat {
    512 + |node.path| + |node.nodeKind| + |node.typeID| + |node.status|
    + if node.attemptID.Some? then |node.attemptID.value| else 0
  }

  /** The size of a node is 512 bytes and the bytes of its texts. */
  lemma NodeSizeIsItsTexts(node: QueryNode)
    ensures var attempt := if node.attemptID.Some? then node.attemptID.value else "";
            NodeSize(node) == 512 + |node.path + node.nodeKind + node.typeID + node.status + attempt|
  {
  }

  // The total size of all nodes of a map, in any order of iteration.
  ghost function MapSize(m: NodeMap): nat {
    if m == map[] then 0
    else
      var path :| path in m;
      assert |m - {path}| < |m|;
      NodeSize(m[path]) + MapSize(m - {path})
  }

  lemma {:induction false} MapSizeWithout(m: NodeMap, path: string)
    requires path in m
    ensures MapSize(m) == NodeSize(m[path]) + MapSize(m - {path})
    decreases |m|
  {
    var picked :| picked in m && MapSize(m) == NodeSize(m[picked]) + MapSize(m - {picked});
    assert |m - {picked}| < |m|;
    if picked != path {
      MapSizeWithout(m - {picked}, path);
      MapSizeWithout(m - {path}, picked);
      assert m - {picked} - {path} == m - {path} - {picked};
    }
  }

  lemma MapSizeInsert(m: NodeMap, path: string, node: QueryNode)
    requires path !in m
    ensures MapSize(m[path := node]) == MapSize(m) + NodeSize(node)
  {
    MapSizeWithout(m[path := node], path);
    assert m[path := node] - {path} == m;
  }

  // --- the invariant

  ghost predicate ParentBefore(scope: string, order: seq<string>, i: nat)
    requires i < |order|
  {
    order[i] == scope || Parent(order[i]) in order[..i]
  }

  ghost predicate ParentsFirst(scope: string, order: seq<string>) {
    forall i | 0 <= i < |order| :: ParentBefore(scope, order, i)
  }

  lemma ParentsFirstSnoc(scope: string, order: seq<string>, path: string)
    ensures ParentsFirst(scope, order + [path]) <==>
            ParentsFirst(scope, order) && (path == scope || Parent(path) in order)
  {
    var more := order + [path];
    assert more[..|order|] == order;
    forall i: nat | i < |order| ensures ParentBefore(scope, more, i) <==> ParentBefore(scope, order, i) {
      assert more[..i] == order[..i];
    }
    assert ParentBefore(scope, more, |order|) <==> path == scope || Parent(path) in order;
    if ParentsFirst(scope, more) {
      forall i: nat | i < |order| ensures ParentBefore(scope, order, i) { assert ParentBefore(scope, more, i); }
    }
  }

  ghost predicate OrderOk(v: View) {
    && NoDuplicates(v.order)
    && (forall path :: path in v.order <==> path in v.nodes)
    && v.order != [] && v.order[0] == v.header.scopePath
    && ParentsFirst(v.header.scopePath, v.order)
  }

  ghost predicate NodesOk(header: Header, m: NodeMap) {
    forall path | path in m :: ValidNode(m[path]) && m[path].path == path && InView(header, path)
  }

  ghost predicate BytesOk(v: View) {
    && v.baseBytes == 1024 + MapSize(v.nodes)
    && v.estimatedBytes == v.baseBytes + MapSize(v.overrides)
    && v.baseBytes + 2 * MapSize(v.overrides) <= QUERY_CLIENT_VIEW_BUDGET
  }

  ghost predicate FlowsOk(generations: map<string, string>) {
    forall flow | flow in generations :: ValidPath(flow) && |Segments(flow)| <= 1 && generations[flow] != ""
  }

  ghost predicate StaleOk(v: View) {
    && StrictlyAscending(v.staleScopes)
    && forall scope | scope in v.staleScopes :: ValidPath(scope)
  }

  ghost predicate HeaderOk(header: Header) {
    && header.sessionID != "" && header.queryID != ""
    && ValidPath(header.scopePath) && (header.depth.Some? ==> header.depth.value >= 0)
    && header.revision >= 0
  }

  /** What holds of every view that is ever published. */
  ghost predicate ViewOk(v: View) {
    && HeaderOk(v.header)
    && OrderOk(v)
    && NodesOk(v.header, v.nodes) && NodesOk(v.header, v.overrides)
    && v.overrides.Keys <= v.nodes.Keys
    && BytesOk(v)
    && FlowsOk(v.flowGenerations)
    && StaleOk(v)
  }

  lemma ScopeIsValid(v: View)
    requires ViewOk(v)
    ensures ValidPath(v.header.scopePath)
  {
  }

  // --- marking a scope stale

  // markQueryStale on the current view
  function MarkStale(v: View, scope: string): View {
    v.(staleScopes := Canonical(v.staleScopes + [scope]))
  }

  /** A mark changes nothing but the stale list, which gains exactly the marked scope. */
  lemma MarkAddsOneScope(v: View, scope: string)
    requires ViewOk(v) && ValidPath(scope)
    ensures ViewOk(MarkStale(v, scope))
    ensures MarkStale(v, scope) == v.(staleScopes := MarkStale(v, scope).staleScopes)
    ensures forall x :: x in MarkStale(v, scope).staleScopes <==> x in v.staleScopes || x == scope
    ensures forall path :: IsStale(MarkStale(v, scope), path) <==> IsStale(v, path) || Covers(scope, path)
  {
    CanonicalIsStrict(v.staleScopes + [scope]);
  }

  // --- the tree structure of a view

  /** Between the scope and any node of a view there is no gap. */
  lemma {:induction false} AncestorsPresent(v: View, path: string, ancestor: string)
    requires ViewOk(v) && path in v.nodes && ValidPath(ancestor)
    requires Covers(v.header.scopePath, ancestor) && Covers(ancestor, path)
    ensures ancestor in v.nodes
    decreases |Segments(path)|
  {
    if ancestor != path {
      var scope := v.header.scopePath;
      if path == scope {
        CoversAntisymmetric(scope, ancestor);
      } else {
        var i :| 0 <= i < |v.order| && v.order[i] == path;
        assert ParentBefore(scope, v.order, i);
        assert Parent(path) in v.order;
        ParentIsBetween(ancestor, path);
        AncestorsPresent(v, Parent(path), ancestor);
      }
    }
  }
}
