/** What a rebuild publishes, and how many pages it can ask for. */
module AssemblyProperties {
  import opened Wrappers
  import opened Text
  import opened Paths
  import opened Slices
  import opened Documents
  import opened Views
  import opened Assembly
  import opened CommitInvariants

  ghost predicate DraftOrderOk(scope: string, order: seq<string>, nodes: NodeMap) {
    && NoDuplicates(order)
    && (forall path :: path in order <==> path in nodes)
    && (order != [] ==> order[0] == scope)
    && ParentsFirst(scope, order)
  }

  ghost predicate DraftOk(d: Draft) {
    && ValidPath(d.header.scopePath)
    && DraftOrderOk(d.header.scopePath, d.order, d.nodes)
    && NodesOk(d.header, d.nodes)
    && d.bytes == 1024 + MapSize(d.nodes)
    && FlowsOk(d.flowGenerations) && FlowsCovered(d.flowGenerations, d.nodes)
  }

  // A valid node with a generation known for its flow.
  ghost predicate NodeCovered(generations: map<string, string>, node: QueryNode) {
    ValidNode(node) && HasFlow(generations, node.path)
  }

  ghost predicate NodesCovered(generations: map<string, string>, nodes: seq<QueryNode>) {
    forall i | 0 <= i < |nodes| :: NodeCovered(generations, nodes[i])
  }

  lemma OrderSnoc(scope: string, order: seq<string>, nodes: NodeMap, node: QueryNode)
    requires DraftOrderOk(scope, order, nodes)
    requires node.path !in nodes && (node.path != scope ==> Parent(node.path) in nodes)
    ensures DraftOrderOk(scope, order + [node.path], nodes[node.path := node])
  {
    ParentsFirstSnoc(scope, order, node.path);
    assert order == [] ==> node.path == scope;
  }

  lemma NodesSnoc(header: Header, nodes: NodeMap, node: QueryNode)
    requires NodesOk(header, nodes) && ValidNode(node) && ValidPath(header.scopePath)
    requires Covers(header.scopePath, node.path)
    requires header.depth.Some? ==> SnapshotDepth(header.scopePath, node.path) <= header.depth.value
    ensures NodesOk(header, nodes[node.path := node])
  {
    DepthIsSegmentDistance(header.scopePath, node.path);
    assert InView(header, node.path);
  }

  lemma AddNodeKeeps(oldSize: int, d: Draft, node: QueryNode, e: Draft)
    requires DraftOk(d) && NodeCovered(d.flowGenerations, node)
    requires AddNode(oldSize, d, node) == Ok(e)
    ensures DraftOk(e) && e.flowGenerations == d.flowGenerations && e.header == d.header && e.total == d.total
  {
    OrderSnoc(d.header.scopePath, d.order, d.nodes, node);
    NodesSnoc(d.header, d.nodes, node);
    MapSizeInsert(d.nodes, node.path, node);
  }

  lemma {:induction false} AddNodesKeeps(oldSize: int, d: Draft, nodes: seq<QueryNode>, e: Draft)
    requires DraftOk(d) && NodesCovered(d.flowGenerations, nodes)
    requires AddNodes(oldSize, d, nodes) == Ok(e)
    ensures DraftOk(e) && e.flowGenerations == d.flowGenerations && e.header == d.header && e.total == d.total
    decreases |nodes|
  {
    if nodes != [] {
      var next := AddNode(oldSize, d, nodes[0]).value;
      assert NodeCovered(d.flowGenerations, nodes[0]);
      AddNodeKeeps(oldSize, d, nodes[0], next);
      assert NodesCovered(d.flowGenerations, nodes[1..]);
      AddNodesKeeps(oldSize, next, nodes[1..], e);
    }
  }

  lemma ValidGenerationKey(flow: string)
    requires ValidPath(flow) && Count(flow, '/') == 1
    ensures |Segments(flow)| <= 1
  {
    ValidSegments(flow);
    SlashCount(Segments(flow));
  }

  lemma FlowsJoin(known: map<string, string>, page: QueryPage, nodes: NodeMap)
    requires FlowsOk(known) && FlowsCovered(known, nodes) && ValidPage(page)
    ensures FlowsOk(known + page.flowGenerations) && FlowsCovered(known + page.flowGenerations, nodes)
    ensures NodesCovered(known + page.flowGenerations, page.nodes)
  {
    forall flow | flow in page.flowGenerations
      ensures ValidPath(flow) && |Segments(flow)| <= 1 && page.flowGenerations[flow] != ""
    {
      ValidGenerationKey(flow);
    }
    forall i | 0 <= i < |page.nodes| ensures NodeCovered(known + page.flowGenerations, page.nodes[i]) { }
  }

  lemma SameScopeSameNodes(a: Header, b: Header, nodes: NodeMap)
    requires NodesOk(a, nodes) && a.scopePath == b.scopePath && a.depth == b.depth
    ensures NodesOk(b, nodes)
  {
    assert forall path :: InView(a, path) <==> InView(b, path);
  }

  lemma PageDraftOk(d: Draft, page: QueryPage, index: nat)
    requires DraftOk(d) && ValidPage(page)
    ensures DraftOk(PageDraft(d, page, index))
    ensures NodesCovered(PageDraft(d, page, index).flowGenerations, page.nodes)
  {
    FlowsJoin(d.flowGenerations, page, d.nodes);
    SameScopeSameNodes(d.header, PageDraft(d, page, index).header, d.nodes);
  }

  lemma AddPageKeeps(oldSize: int, d: Draft, page: QueryPage, index: nat, e: Draft)
    requires DraftOk(d) && ValidPage(page) && AddPage(oldSize, d, page, index) == Ok(e)
    ensures DraftOk(e) && e.header == PageDraft(d, page, index).header
  {
    PageDraftOk(d, page, index);
    AddNodesKeeps(oldSize, PageDraft(d, page, index), page.nodes, e);
  }

  // A header that a page has filled in.
  predicate Identified(header: Header) {
    header.sessionID != "" && header.queryID != "" && header.revision >= 0
  }

  /** What a rebuild publishes: a view in order, without overlay and without stale scopes, every
      node with its generation, and fitting the budget together with the view it replaces. */
  ghost predicate FreshView(v: View, sel: Selection, oldSize: nat) {
    && ViewOk(v) && Covered(v)
    && v.overrides == map[] && v.staleScopes == []
    && v.header.scopePath == SelectedScope(sel) && v.header.depth == sel.depth
    && oldSize + v.estimatedBytes <= QUERY_CLIENT_VIEW_BUDGET
  }

  lemma FinishedIsOk(d: Draft, v: View)
    requires DraftOk(d) && Identified(d.header) && FinishDraft(d) == Ok(v)
    requires d.header.depth.Some? ==> d.header.depth.value >= 0
    requires d.bytes <= QUERY_CLIENT_VIEW_BUDGET
    ensures ViewOk(v)
  {
    assert v.nodes == d.nodes && v.order == d.order && v.header == d.header;
    assert OrderOk(v);
    assert MapSize(v.overrides) == 0;
    assert BytesOk(v);
    assert FlowsOk(v.flowGenerations) && StaleOk(v);
  }

  lemma FinishedIsFresh(sel: Selection, oldSize: nat, d: Draft, v: View)
    requires DraftOk(d) && Identified(d.header) && FinishDraft(d) == Ok(v)
    requires SelectionOk(sel) && d.header.scopePath == ScopeOf(sel) && d.header.depth == sel.depth
    requires sel.depth.Some? ==> sel.depth.value >= 0
    requires oldSize + d.bytes <= QUERY_CLIENT_VIEW_BUDGET
    ensures FreshView(v, sel, oldSize)
  {
    FinishedIsOk(d, v);
    SelectionExactly(sel);
  }

  // Adding one page to a loop that has used `index` pages.
  ghost predicate LoopOk(sel: Selection, oldSize: nat, d: Draft, index: nat) {
    match d
    case Draft(header, _, order, _, bytes, _) =>
      && DraftOk(d)
      && header.scopePath == ScopeOf(sel) && header.depth == sel.depth
      && (sel.depth.Some? ==> sel.depth.value >= 0)
      && (index > 0 ==> Identified(header))
      && (index == 0 ==> header.revision == 0)
      && (order == [] ==> bytes == 1024)
      && (order != [] ==> oldSize + bytes <= QUERY_CLIENT_VIEW_BUDGET)
      && 512 * index <= bytes - 1024
  }

  lemma LoopKeeps(sel: Selection, oldSize: nat, d: Draft, page: QueryPage, index: nat, e: Draft)
    requires LoopOk(sel, oldSize, d, index) && ValidPage(page) && AddPage(oldSize, d, page, index) == Ok(e)
    ensures DraftOk(e) && e.header.scopePath == ScopeOf(sel) && e.header.depth == sel.depth
    ensures Identified(e.header)
    ensures e.order != [] ==> oldSize + e.bytes <= QUERY_CLIENT_VIEW_BUDGET
    ensures !page.complete ==> LoopOk(sel, oldSize, e, index + 1)
  {
    var start := PageDraft(d, page, index);
    AddPageKeeps(oldSize, d, page, index, e);
    AddNodesGrows(oldSize, start, page.nodes);
    if page.nodes != [] { AddNodesNonEmpty(oldSize, start, page.nodes); }
    assert page.nodes == [] ==> e == start;
  }

  lemma {:induction false} AddNodesNonEmpty(oldSize: int, d: Draft, nodes: seq<QueryNode>)
    requires AddNodes(oldSize, d, nodes).Ok?
    ensures |AddNodes(oldSize, d, nodes).value.order| == |d.order| + |nodes|
    decreases |nodes|
  {
    if nodes != [] { AddNodesNonEmpty(oldSize, AddNode(oldSize, d, nodes[0]).value, nodes[1..]); }
  }

  // --- the pages a rebuild used

  // Adding pages one after the other, the first of them as page `index`.
  function AddPages(oldSize: int, d: Draft, index: nat, pages: seq<QueryPage>): Result<Draft, Error>
    decreases |pages|
  {
    if pages == [] then Ok(d)
    else
      match AddPage(oldSize, d, pages[0], index)
      case Err(error) => Err(error)
      case Ok(next) => AddPages(oldSize, next, index + 1, pages[1..])
  }

  ghost predicate ServesPages(server: Server, n: nat, pages: seq<QueryPage>) {
    forall i | 0 <= i < |pages| :: server(n + i) == Answered(Page(pages[i])) && ValidPage(pages[i])
  }

  // Only the last page is complete.
  ghost predicate ClosedListing(pages: seq<QueryPage>) {
    pages != [] && forall i | 0 <= i < |pages| :: pages[i].complete == (i == |pages| - 1)
  }

  lemma ListingCons(server: Server, n: nat, page: QueryPage, rest: seq<QueryPage>)
    requires server(n) == Answered(Page(page)) && ValidPage(page) && ServesPages(server, n + 1, rest)
    requires if rest == [] then page.complete else !page.complete && ClosedListing(rest)
    ensures ServesPages(server, n, [page] + rest) && ClosedListing([page] + rest)
  {
    var pages := [page] + rest;
    forall i | 0 <= i < |pages| ensures server(n + i) == Answered(Page(pages[i])) && ValidPage(pages[i]) {
      if i > 0 { assert server(n + 1 + (i - 1)) == Answered(Page(rest[i - 1])); }
    }
  }

  lemma ListingHead(server: Server, n: nat, pages: seq<QueryPage>)
    requires ServesPages(server, n, pages) && ClosedListing(pages)
    ensures server(n) == Answered(Page(pages[0])) && ValidPage(pages[0])
    ensures pages[0].complete <==> |pages| == 1
    ensures |pages| > 1 ==> ServesPages(server, n + 1, pages[1..]) && ClosedListing(pages[1..])
  {
    var rest := pages[1..];
    assert server(n + 0) == Answered(Page(pages[0]));
    forall i | 0 <= i < |rest| ensures server(n + 1 + i) == Answered(Page(rest[i])) && ValidPage(rest[i]) {
      assert server(n + (i + 1)) == Answered(Page(pages[i + 1]));
    }
  }

  lemma AddPagesCons(oldSize: nat, d: Draft, index: nat, page: QueryPage, rest: seq<QueryPage>)
    ensures AddPages(oldSize, d, index, [page] + rest) ==
            (match AddPage(oldSize, d, page, index)
             case Err(error) => Err(error)
             case Ok(next) => AddPages(oldSize, next, index + 1, rest))
  {
    assert ([page] + rest)[1..] == rest;
  }

  lemma AssembleTurn(oldSize: nat, d: Draft, index: nat, reply: Reply)
    returns (page: QueryPage, e: Draft)
    requires var turn := PageTurn(oldSize, d, index, reply); turn.On? || turn.result.Ok?
    ensures reply == Answered(Page(page)) && ValidPage(page) && AddPage(oldSize, d, page, index) == Ok(e)
    ensures PageTurn(oldSize, d, index, reply) == if page.complete then Over(FinishDraft(e)) else On(e)
  {
    page := QueryDocument(reply, PageKind).value.page;
    e := AddPage(oldSize, d, page, index).value;
  }

  /** A rebuild that succeeds used exactly the answers that are the pages of one closed listing,
      and built what adding those pages in order builds. */
  lemma {:induction false} AssembledFrom(oldSize: nat, d: Draft, index: nat, server: Server, n: nat)
    returns (pages: seq<QueryPage>, e: Draft)
    requires Assemble(oldSize, d, index, server, n).0.Ok?
    ensures ServesPages(server, n, pages) && ClosedListing(pages)
    ensures AddPages(oldSize, d, index, pages) == Ok(e)
    ensures Assemble(oldSize, d, index, server, n).0 == FinishDraft(e)
    ensures Assemble(oldSize, d, index, server, n).1 == n + |pages|
    decreases QUERY_CLIENT_VIEW_BUDGET - d.bytes
  {
    var page, next := AssembleTurn(oldSize, d, index, server(n));
    if page.complete {
      ListingCons(server, n, page, []);
      assert [page] + [] == [page];
      pages, e := [page], next;
      assert AddPages(oldSize, next, index + 1, pages[1..]) == Ok(next);
    } else {
      TurnCosts(oldSize, d, index, server(n));
      var rest;
      rest, e := AssembledFrom(oldSize, next, index + 1, server, n + 1);
      ListingCons(server, n, page, rest);
      AddPagesCons(oldSize, d, index, page, rest);
      pages := [page] + rest;
    }
  }

  lemma ListingTurn(oldSize: nat, d: Draft, index: nat, reply: Reply, page: QueryPage, next: Draft)
    requires reply == Answered(Page(page)) && ValidPage(page) && AddPage(oldSize, d, page, index) == Ok(next)
    ensures PageTurn(oldSize, d, index, reply) == if page.complete then Over(FinishDraft(next)) else On(next)
  {
  }

  /** And every closed listing whose pages can be added in order is what a rebuild succeeds with. */
  lemma {:induction false} ListingIsAssembled(
      oldSize: nat, d: Draft, index: nat, server: Server, n: nat, pages: seq<QueryPage>)
    requires ServesPages(server, n, pages) && ClosedListing(pages)
    requires AddPages(oldSize, d, index, pages).Ok?
    ensures Assemble(oldSize, d, index, server, n).0 == FinishDraft(AddPages(oldSize, d, index, pages).value)
    ensures Assemble(oldSize, d, index, server, n).1 == n + |pages|
    decreases |pages|
  {
    ListingHead(server, n, pages);
    var next := AddPage(oldSize, d, pages[0], index).value;
    ListingTurn(oldSize, d, index, server(n), pages[0], next);
    if |pages| > 1 { ListingIsAssembled(oldSize, next, index + 1, server, n + 1, pages[1..]); }
  }

  /** Whatever the server answers, the page loop sends at most one request for every 512 bytes of
      the view budget. */
  lemma {:induction false} PageRequestsAreBounded(oldSize: nat, d: Draft, index: nat, server: Server, n: nat)
    requires d.bytes <= QUERY_CLIENT_VIEW_BUDGET
    ensures (Assemble(oldSize, d, index, server, n).1 - n) * 512 <= 512 + QUERY_CLIENT_VIEW_BUDGET - d.bytes
    decreases QUERY_CLIENT_VIEW_BUDGET - d.bytes
  {
    var turn := PageTurn(oldSize, d, index, server(n));
    if turn.On? {
      TurnCosts(oldSize, d, index, server(n));
      PageRequestsAreBounded(oldSize, turn.draft, index + 1, server, n + 1);
    }
  }

  // --- what those pages make of a draft

  // What the loop leaves when it is done.
  ghost predicate LoopDone(sel: Selection, oldSize: nat, e: Draft) {
    && DraftOk(e) && e.header.scopePath == ScopeOf(sel) && e.header.depth == sel.depth
    && Identified(e.header)
    && (e.order != [] ==> oldSize + e.bytes <= QUERY_CLIENT_VIEW_BUDGET)
  }

  ghost predicate ValidListing(pages: seq<QueryPage>) {
    ClosedListing(pages) && forall i | 0 <= i < |pages| :: ValidPage(pages[i])
  }

  lemma ListingTail(pages: seq<QueryPage>)
    requires ValidListing(pages)
    ensures ValidPage(pages[0]) && (pages[0].complete <==> |pages| == 1)
    ensures |pages| > 1 ==> ValidListing(pages[1..])
  {
    assert forall i | 0 <= i < |pages| - 1 :: pages[1..][i] == pages[i + 1];
  }

  lemma AddPagesTurn(sel: Selection, oldSize: nat, d: Draft, index: nat, pages: seq<QueryPage>) returns (next: Draft)
    requires LoopOk(sel, oldSize, d, index) && AddPages(oldSize, d, index, pages).Ok?
    requires ValidListing(pages)
    ensures |pages| > 1 ==>
              && LoopOk(sel, oldSize, next, index + 1) && ValidListing(pages[1..])
              && AddPages(oldSize, next, index + 1, pages[1..]) == AddPages(oldSize, d, index, pages)
    ensures |pages| == 1 ==> LoopDone(sel, oldSize, AddPages(oldSize, d, index, pages).value)
  {
    next := AddPage(oldSize, d, pages[0], index).value;
    ListingTail(pages);
    LoopKeeps(sel, oldSize, d, pages[0], index, next);
  }

  lemma {:induction false} AddPagesKeeps(
      sel: Selection, oldSize: nat, d: Draft, index: nat, pages: seq<QueryPage>)
    requires LoopOk(sel, oldSize, d, index) && AddPages(oldSize, d, index, pages).Ok?
    requires ValidListing(pages)
    ensures LoopDone(sel, oldSize, AddPages(oldSize, d, index, pages).value)
    decreases |pages|
  {
    hide AddPages, LoopOk, LoopDone;
    var next := AddPagesTurn(sel, oldSize, d, index, pages);
    if |pages| > 1 { AddPagesKeeps(sel, oldSize, next, index + 1, pages[1..]); }
  }

  ghost predicate FreshResult(sel: Selection, oldSize: nat, result: Result<View, Error>) {
    result.Ok? ==> FreshView(result.value, sel, oldSize)
  }

  lemma StartIsOk(sel: Selection, oldSize: nat)
    requires SelectionOk(sel)
    ensures LoopOk(sel, oldSize, StartDraft(sel), 0)
  {
    assert MapSize(map[]) == 0;
  }

  /** Whatever the server answers: what a rebuild publishes is fresh and in order, and it takes at
      most one page request for every 512 bytes of the view budget. */
  lemma RebuildIsFresh(sel: Selection, oldSize: nat, server: Server, n: nat)
    ensures FreshResult(sel, oldSize, Rebuild(sel, oldSize, server, n).0)
    ensures n <= Rebuild(sel, oldSize, server, n).1 <= n + QUERY_CLIENT_VIEW_BUDGET / 512
  {
    if SelectionOk(sel) {
      PageRequestsAreBounded(oldSize, StartDraft(sel), 0, server, n);
      if Assemble(oldSize, StartDraft(sel), 0, server, n).0.Ok? {
        var pages, e := AssembledFrom(oldSize, StartDraft(sel), 0, server, n);
        StartIsOk(sel, oldSize);
        AddPagesKeeps(sel, oldSize, StartDraft(sel), 0, pages);
        FinishedIsFresh(sel, oldSize, e, FinishDraft(e).value);
      }
    }
  }

  // --- the listing itself

  function AllNodes(pages: seq<QueryPage>): seq<QueryNode> {
    if pages == [] then [] else pages[0].nodes + AllNodes(pages[1..])
  }

  function PathsOf(nodes: seq<QueryNode>): seq<string> {
    seq(|nodes|, i requires 0 <= i < |nodes| => nodes[i].path)
  }

  /** A map and an order that list these nodes after what was there before. */
  ghost predicate Extends(d: Draft, nodes: seq<QueryNode>, e: Draft) {
    && e.order == d.order + PathsOf(nodes)
    && (forall path | path in d.nodes :: path in e.nodes && e.nodes[path] == d.nodes[path])
    && (forall i | 0 <= i < |nodes| :: nodes[i].path in e.nodes && e.nodes[nodes[i].path] == nodes[i])
  }

  lemma {:induction false} AddNodesExtends(oldSize: int, d: Draft, nodes: seq<QueryNode>, e: Draft)
    requires AddNodes(oldSize, d, nodes) == Ok(e)
    ensures Extends(d, nodes, e)
    decreases |nodes|
  {
    if nodes != [] {
      var next := AddNode(oldSize, d, nodes[0]).value;
      AddNodesExtends(oldSize, next, nodes[1..], e);
      assert PathsOf(nodes) == [nodes[0].path] + PathsOf(nodes[1..]);
      assert nodes[0].path in next.nodes;
      forall i | 0 <= i < |nodes| ensures nodes[i].path in e.nodes && e.nodes[nodes[i].path] == nodes[i] {
        if i > 0 { assert nodes[1..][i - 1] == nodes[i]; }
      }
    }
  }

  lemma ExtendsTwice(d: Draft, a: seq<QueryNode>, e: Draft, b: seq<QueryNode>, f: Draft)
    requires Extends(d, a, e) && Extends(e, b, f)
    ensures Extends(d, a + b, f)
  {
    assert PathsOf(a + b) == PathsOf(a) + PathsOf(b);
  }

  lemma {:induction false} AddPagesExtends(oldSize: nat, d: Draft, index: nat, pages: seq<QueryPage>, e: Draft)
    requires AddPages(oldSize, d, index, pages) == Ok(e)
    ensures Extends(d, AllNodes(pages), e)
    decreases |pages|
  {
    if pages != [] {
      var next := AddPage(oldSize, d, pages[0], index).value;
      AddNodesExtends(oldSize, PageDraft(d, pages[0], index), pages[0].nodes, next);
      AddPagesExtends(oldSize, next, index + 1, pages[1..], e);
      assert Extends(d, pages[0].nodes, next);
      ExtendsTwice(d, pages[0].nodes, next, AllNodes(pages[1..]), e);
    }
  }

  /** A rebuild that succeeds publishes exactly the nodes of the pages it used, however these are
      split into pages. */
  lemma RebuildListsItsPages(sel: Selection, oldSize: nat, server: Server, n: nat)
    returns (pages: seq<QueryPage>)
    requires Rebuild(sel, oldSize, server, n).0.Ok?
    ensures ServesPages(server, n, pages) && ClosedListing(pages)
    ensures Rebuild(sel, oldSize, server, n).1 == n + |pages|
    ensures var v := Rebuild(sel, oldSize, server, n).0.value;
            v.order == PathsOf(AllNodes(pages))
            && forall i | 0 <= i < |AllNodes(pages)| ::
                 AllNodes(pages)[i].path in v.nodes && v.nodes[AllNodes(pages)[i].path] == AllNodes(pages)[i]
  {
    var e;
    pages, e := AssembledFrom(oldSize, StartDraft(sel), 0, server, n);
    AddPagesExtends(oldSize, StartDraft(sel), 0, pages, e);
    assert [] + PathsOf(AllNodes(pages)) == PathsOf(AllNodes(pages));
  }
}
