/** Rebuilding a view from an unbounded sequence of server pages. */
module Assembly {
  import opened Wrappers
  import opened Text
  import opened Paths
  import opened Documents
  import opened Views

  // QuerySelection: empty strings mean unset.
  datatype Selection = Selection(scopePath: string, flowName: string, depth: Option<int>)

  function ScopeOf(sel: Selection): string {
    if sel.flowName != "" then "/" + sel.flowName
    else if sel.scopePath != "" then sel.scopePath
    else "/"
  }

  // The checks of readQuerySnapshot on the selection, and the decoder's on the first request.
  predicate SelectionOk(sel: Selection) {
    && !(sel.scopePath != "" && sel.flowName != "")
    && ValidPath(ScopeOf(sel))
    && (sel.depth.Some? ==> sel.depth.value >= 0)
    && !Contains(sel.flowName, '/')
  }

  /** The scope a selection is about: the flow it names, the path it gives, or else the whole tree. */
  function SelectedScope(sel: Selection): string {
    if sel.flowName != "" then Render([sel.flowName])
    else if sel.scopePath == "" then "/"
    else sel.scopePath
  }

  /** A selection that can be asked for: at most one of path and flow, a valid path, a flow name that
      is one segment, and no negative depth. */
  ghost predicate Askable(sel: Selection) {
    && (sel.scopePath == "" || sel.flowName == "")
    && (sel.scopePath != "" ==> ValidPath(sel.scopePath))
    && (sel.flowName != "" ==> TreeSegment(sel.flowName))
    && (sel.depth.Some? ==> sel.depth.value >= 0)
  }

  lemma FlowPath(name: string)
    requires name != ""
    ensures Render([name]) == "/" + name
    ensures ValidPath("/" + name) && !Contains(name, '/') <==> TreeSegment(name)
  {
    assert [name][1..] == [];
    assert Slashed([name]) == "/" + name + Slashed([]);
    if TreeSegment(name) { RenderedIsValid([name]); }
    if ValidPath("/" + name) && !Contains(name, '/') {
      var path := "/" + name;
      SplitOne(name);
      assert path[1..] == name && path != "/";
      assert name in Split(path[1..]);
    }
  }

  /** The checks on a selection pass exactly the ones that can be asked for, and the scope is theirs. */
  lemma SelectionExactly(sel: Selection)
    ensures SelectionOk(sel) <==> Askable(sel)
    ensures SelectionOk(sel) ==> ScopeOf(sel) == SelectedScope(sel)
    ensures SelectionOk(sel) ==> ValidPath(SelectedScope(sel))
    ensures SelectionOk(sel) && sel.flowName != "" ==> Segments(SelectedScope(sel)) == [sel.flowName]
  {
    hide ValidPath, TreeSegment;
    if sel.flowName != "" {
      FlowPath(sel.flowName);
      if TreeSegment(sel.flowName) { RenderedIsValid([sel.flowName]); }
    }
    RootIsValid();
  }

  lemma RootIsValid()
    ensures ValidPath("/")
  {
  }

  datatype Draft = Draft(
    header: Header, nodes: NodeMap, order: seq<string>, flowGenerations: map<string, string>,
    bytes: int, total: Option<int>)

  function StartDraft(sel: Selection): Draft {
    var header := Header("", "", "", NO_STAMP, NO_STAMP, "", ScopeOf(sel), sel.depth, 0);
    Draft(header, map[], [], map[], 1024, None)
  }

  function FirstHeader(header: Header, page: QueryPage): Header {
    Header(page.sessionID, page.queryID, page.snapshotID, page.asOf, page.expiresAt, page.rootName,
           header.scopePath, header.depth,
           if page.baseRevision.Some? then page.baseRevision.value else header.revision)
  }

  predicate SameSnapshot(header: Header, page: QueryPage) {
    && header.sessionID == page.sessionID && header.queryID == page.queryID
    && header.snapshotID == page.snapshotID && header.asOf == page.asOf
    && header.expiresAt == page.expiresAt && header.rootName == page.rootName
    && (page.baseRevision.None? <==> header.revision == 0)
    && (page.baseRevision.Some? ==> page.baseRevision.value == header.revision)
  }

  predicate NodeFits(d: Draft, node: QueryNode) {
    && node.path !in d.nodes
    && Covers(d.header.scopePath, node.path)
    && (d.header.depth.Some? ==> SnapshotDepth(d.header.scopePath, node.path) <= d.header.depth.value)
    && (node.path != d.header.scopePath ==> Parent(node.path) in d.nodes)
  }

  function AddNode(oldSize: int, d: Draft, node: QueryNode): Result<Draft, Error> {
    if !NodeFits(d, node) then Err(ProtocolError)
    else
      var bytes := d.bytes + NodeSize(node);
      if oldSize + bytes > QUERY_CLIENT_VIEW_BUDGET then Err(Failure("resource_exhausted", None))
      else Ok(d.(nodes := d.nodes[node.path := node], order := d.order + [node.path], bytes := bytes))
  }

  function AddNodes(oldSize: int, d: Draft, nodes: seq<QueryNode>): Result<Draft, Error>
    decreases |nodes|
  {
    if nodes == [] then Ok(d)
    else
      match AddNode(oldSize, d, nodes[0])
      case Err(error) => Err(error)
      case Ok(next) => AddNodes(oldSize, next, nodes[1..])
  }

  predicate GenerationsAgree(known: map<string, string>, more: map<string, string>) {
    forall flow | flow in more :: flow in known ==> known[flow] == more[flow]
  }

  // The draft with which the nodes of a page are added.
  function PageDraft(d: Draft, page: QueryPage, index: nat): Draft {
    d.(header := if index == 0 then FirstHeader(d.header, page) else d.header,
       total := if page.totalNodes.Some? then page.totalNodes else d.total,
       flowGenerations := d.flowGenerations + page.flowGenerations)
  }

  // Everything the page loop does with one page.
  function AddPage(oldSize: int, d: Draft, page: QueryPage, index: nat): Result<Draft, Error> {
    if page.pageIndex != index then Err(ProtocolError)
    else if index > 0 && !SameSnapshot(d.header, page) then Err(ProtocolError)
    else if page.totalNodes.Some? && d.total.Some? && d.total != page.totalNodes then Err(ProtocolError)
    else if !GenerationsAgree(d.flowGenerations, page.flowGenerations) then Err(ProtocolError)
    else AddNodes(oldSize, PageDraft(d, page, index), page.nodes)
  }

  function FinishDraft(d: Draft): Result<View, Error> {
    if d.order == [] || d.order[0] != d.header.scopePath then Err(ProtocolError)
    else if d.total.Some? && |d.order| != d.total.value then Err(ProtocolError)
    else Ok(View(d.header, d.nodes, map[], d.bytes, d.bytes, d.order, d.flowGenerations, []))
  }

  lemma {:induction false} AddNodesGrows(oldSize: int, d: Draft, nodes: seq<QueryNode>)
    ensures AddNodes(oldSize, d, nodes).Ok? ==>
              && AddNodes(oldSize, d, nodes).value.bytes >= d.bytes + 512 * |nodes|
              && (nodes != [] ==> oldSize + AddNodes(oldSize, d, nodes).value.bytes <= QUERY_CLIENT_VIEW_BUDGET)
    decreases |nodes|
  {
    if nodes != [] {
      var next := AddNode(oldSize, d, nodes[0]);
      if next.Ok? {
        AddNodesGrows(oldSize, next.value, nodes[1..]);
        assert nodes[1..] == [] ==> AddNodes(oldSize, next.value, nodes[1..]) == next;
      }
    }
  }

  // One turn of the page loop: it goes on with a draft or is over.
  datatype Turn = On(draft: Draft) | Over(result: Result<View, Error>)

  function PageTurn(oldSize: nat, d: Draft, index: nat, reply: Reply): Turn {
    match QueryDocument(reply, PageKind)
    case Err(error) => Over(Err(error))
    case Ok(document) =>
      match AddPage(oldSize, d, document.page, index)
      case Err(error) => Over(Err(error))
      case Ok(next) => if document.page.complete then Over(FinishDraft(next)) else On(next)
  }

  // A page that is not the last carries a node, and nodes cost budget.
  lemma TurnCosts(oldSize: nat, d: Draft, index: nat, reply: Reply)
    ensures PageTurn(oldSize, d, index, reply).On? ==>
              d.bytes + 512 <= PageTurn(oldSize, d, index, reply).draft.bytes <= QUERY_CLIENT_VIEW_BUDGET
  {
    if PageTurn(oldSize, d, index, reply).On? {
      var page := reply.document.page;
      AddNodesGrows(oldSize, PageDraft(d, page, index), page.nodes);
    }
  }

  // The page loop, and the number of the first answer it did not use.
  function Assemble(oldSize: nat, d: Draft, index: nat, server: Server, n: nat): (result: (Result<View, Error>, nat))
    ensures result.1 > n
    decreases QUERY_CLIENT_VIEW_BUDGET - d.bytes
  {
    var turn := PageTurn(oldSize, d, index, server(n));
    if turn.Over? then (turn.result, n + 1)
    else
      TurnCosts(oldSize, d, index, server(n));
      Assemble(oldSize, turn.draft, index + 1, server, n + 1)
  }

  // readQuerySnapshot, given the size of the current view (0 if there is none)
  function Rebuild(sel: Selection, oldSize: nat, server: Server, n: nat): (Result<View, Error>, nat) {
    if !SelectionOk(sel) then (Err(RequestError), n)
    else Assemble(oldSize, StartDraft(sel), 0, server, n)
  }
}
