/** The imperative rebuild: one unpublished snapshot object is filled page by page. */
module PageCalls {
  import opened Wrappers
  import opened Paths
  import opened Documents
  import opened Views
  import opened Assembly
  import opened Snapshots

  // An unpublished snapshot, with the node count announced so far, as a draft.
  ghost function AsDraft(s: QuerySnapshot, total: Option<int>): Draft
    reads s, s.nodes, s.order, s.flowGenerations
  {
    Draft(s.header, s.nodes.entries, s.order.items, s.flowGenerations.entries, s.estimatedBytes, total)
  }

  // Objects a page may write to: those of the unpublished snapshot.
  ghost function Own(s: QuerySnapshot): set<object>
    reads s
  {
    {s, s.nodes, s.order, s.flowGenerations}
  }

  twostate predicate SameParts(s: QuerySnapshot)
    reads s
  {
    && s.nodes == old(s.nodes) && s.order == old(s.order) && s.flowGenerations == old(s.flowGenerations)
    && s.overrides == old(s.overrides) && s.stale == old(s.stale) && s.staleCount == old(s.staleCount)
  }

  method AddPageNode(draft: QuerySnapshot, oldSize: nat, node: QueryNode, ghost total: Option<int>)
    returns (error: Option<Error>)
    modifies Own(draft)
    ensures SameParts(draft)
    ensures match AddNode(oldSize, old(AsDraft(draft, total)), node)
            case Err(failure) => error == Some(failure)
            case Ok(next) => error == None && AsDraft(draft, total) == next
  {
    var header := draft.header;
    var scope := header.scopePath;
    if node.path in draft.nodes.entries { return Some(ProtocolError); }
    if !Covers(scope, node.path) { return Some(ProtocolError); }
    if header.depth.Some? && SnapshotDepth(scope, node.path) > header.depth.value { return Some(ProtocolError); }
    if node.path != scope && Parent(node.path) !in draft.nodes.entries { return Some(ProtocolError); }
    draft.nodes.entries := draft.nodes.entries[node.path := node];
    draft.order.items := draft.order.items + [node.path];
    draft.estimatedBytes := draft.estimatedBytes + NodeSize(node);
    if oldSize + draft.estimatedBytes > QUERY_CLIENT_VIEW_BUDGET { return Some(Failure("resource_exhausted", None)); }
    return None;
  }

  method AddPageNodes(draft: QuerySnapshot, oldSize: nat, nodes: seq<QueryNode>, ghost total: Option<int>)
    returns (error: Option<Error>)
    modifies Own(draft)
    ensures SameParts(draft)
    ensures match AddNodes(oldSize, old(AsDraft(draft, total)), nodes)
            case Err(failure) => error == Some(failure)
            case Ok(next) => error == None && AsDraft(draft, total) == next
  {
    ghost var before := AsDraft(draft, total);
    for i := 0 to |nodes|
      invariant SameParts(draft)
      invariant AddNodes(oldSize, before, nodes) == AddNodes(oldSize, AsDraft(draft, total), nodes[i..])
    {
      assert nodes[i..][0] == nodes[i] && nodes[i..][1..] == nodes[i + 1..];
      error := AddPageNode(draft, oldSize, nodes[i], total);
      if error.Some? { return; }
    }
    assert nodes[|nodes|..] == [];
    error := None;
  }

  // Adds the generations of a page one by one, refusing to change a known one.
  method AddGenerations(known: Table<string>, more: map<string, string>) returns (agree: bool)
    modifies known
    ensures agree == GenerationsAgree(old(known.entries), more)
    ensures agree ==> known.entries == old(known.entries) + more
  {
    ghost var before := known.entries;
    var left := more.Keys;
    while left != {}
      invariant left <= more.Keys
      invariant known.entries.Keys == before.Keys + (more.Keys - left)
      invariant forall flow | flow in known.entries ::
                  known.entries[flow] == if flow in more.Keys - left then more[flow] else before[flow]
      invariant forall flow | flow in more.Keys - left :: flow in before ==> before[flow] == more[flow]
      decreases left
    {
      var flow :| flow in left;
      if flow in known.entries && known.entries[flow] != more[flow] { return false; }
      known.entries := known.entries[flow := more[flow]];
      left := left - {flow};
    }
    assert known.entries == before + more;
    return true;
  }

  method TakePage(draft: QuerySnapshot, oldSize: nat, total: Option<int>, index: nat, page: QueryPage)
    returns (error: Option<Error>, newTotal: Option<int>)
    modifies Own(draft)
    ensures SameParts(draft)
    ensures match AddPage(oldSize, old(AsDraft(draft, total)), page, index)
            case Err(failure) => error == Some(failure)
            case Ok(next) => error == None && AsDraft(draft, newTotal) == next
  {
    hide SameSnapshot, GenerationsAgree, FirstHeader, AddNodes;
    newTotal := total;
    if page.pageIndex != index { return Some(ProtocolError), newTotal; }
    if index == 0 {
      draft.header := FirstHeader(draft.header, page);
    } else if !SameSnapshot(draft.header, page) {
      return Some(ProtocolError), newTotal;
    }
    if page.totalNodes.Some? {
      if total.Some? && total != page.totalNodes { return Some(ProtocolError), newTotal; }
      newTotal := page.totalNodes;
    }
    var agree := AddGenerations(draft.flowGenerations, page.flowGenerations);
    if !agree { return Some(ProtocolError), newTotal; }
    assert AsDraft(draft, newTotal) == PageDraft(old(AsDraft(draft, total)), page, index);
    error := AddPageNodes(draft, oldSize, page.nodes, newTotal);
  }

  // One answer of the server to a page request.
  method TakeAnswer(draft: QuerySnapshot, oldSize: nat, total: Option<int>, index: nat, reply: Reply)
    returns (over: bool, error: Option<Error>, newTotal: Option<int>)
    modifies Own(draft)
    ensures SameParts(draft)
    ensures match PageTurn(oldSize, old(AsDraft(draft, total)), index, reply)
            case On(next) => !over && error == None && AsDraft(draft, newTotal) == next
            case Over(Err(failure)) => over && error == Some(failure)
            case Over(Ok(view)) => over && error == None && FinishDraft(AsDraft(draft, newTotal)) == Ok(view)
  {
    var answer := QueryDocument(reply, PageKind);
    if answer.Err? { return true, Some(answer.error), total; }
    var page := answer.value.page;
    error, newTotal := TakePage(draft, oldSize, total, index, page);
    if error.Some? || !page.complete { return error.Some?, error, newTotal; }
    if draft.order.items == [] || draft.order.items[0] != draft.header.scopePath {
      return true, Some(ProtocolError), newTotal;
    }
    if newTotal.Some? && |draft.order.items| != newTotal.value { return true, Some(ProtocolError), newTotal; }
    return true, None, newTotal;
  }

  // The page loop. It ends against every server.
  method AssemblePages(draft: QuerySnapshot, oldSize: nat, server: Server, n: nat)
    returns (error: Option<Error>, next: nat, ghost total: Option<int>)
    modifies Own(draft)
    ensures SameParts(draft)
    ensures var (built, after) := Assemble(oldSize, old(AsDraft(draft, None)), 0, server, n);
            next == after &&
            match built
            case Err(failure) => error == Some(failure)
            case Ok(view) => error == None && FinishDraft(AsDraft(draft, total)) == Ok(view)
  {
    ghost var start := AsDraft(draft, None);
    var known: Option<int> := None;
    next := n;
    var index := 0;
    while true
      invariant SameParts(draft)
      invariant Assemble(oldSize, start, 0, server, n) ==
                Assemble(oldSize, AsDraft(draft, known), index, server, next)
      decreases QUERY_CLIENT_VIEW_BUDGET - draft.estimatedBytes
    {
      TurnCosts(oldSize, AsDraft(draft, known), index, server(next));
      var over;
      over, error, known := TakeAnswer(draft, oldSize, known, index, server(next));
      next := next + 1;
      if over { total := known; return; }
      index := index + 1;
    }
  }

  // readQuerySnapshot, up to the point where the snapshot is published.
  method BuildSnapshot(sel: Selection, oldSize: nat, server: Server, n: nat)
    returns (draft: QuerySnapshot?, error: Option<Error>, next: nat)
    ensures next == Rebuild(sel, oldSize, server, n).1
    ensures match Rebuild(sel, oldSize, server, n).0
            case Err(failure) => draft == null && error == Some(failure)
            case Ok(view) => draft != null && fresh(draft) && draft.Valid() && draft.Contents() == view && error == None
  {
    if !SelectionOk(sel) { return null, Some(RequestError), n; }
    draft := new QuerySnapshot.Empty(StartDraft(sel).header);
    assert AsDraft(draft, None) == StartDraft(sel);
    ghost var total;
    error, next, total := AssemblePages(draft, oldSize, server, n);
    if error.Some? { return null, error, next; }
    draft.baseBytes := draft.estimatedBytes;
  }
}
