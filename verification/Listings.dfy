/** Exactly which listings a rebuild accepts, said without the page loop, and the view it makes of
    them. */
module Listings {
  import opened Wrappers
  import opened Paths
  import opened Slices
  import opened Documents
  import opened Views
  import opened Assembly
  import opened AssemblyProperties

  // --- the nodes of a listing

  function TableOf(nodes: seq<QueryNode>): NodeMap {
    if nodes == [] then map[]
    else TableOf(nodes[..|nodes| - 1])[nodes[|nodes| - 1].path := nodes[|nodes| - 1]]
  }

  function TotalOf(nodes: seq<QueryNode>): nat {
    if nodes == [] then 0 else TotalOf(nodes[..|nodes| - 1]) + NodeSize(nodes[|nodes| - 1])
  }

  /** Nodes of the selection, each once, each after its parent, starting at the scope. */
  ghost predicate TreeOrder(header: Header, nodes: seq<QueryNode>) {
    && NoDuplicates(PathsOf(nodes))
    && ParentsFirst(header.scopePath, PathsOf(nodes))
    && forall i | 0 <= i < |nodes| :: InSelection(header, nodes[i].path)
  }

  ghost predicate Fits(oldSize: nat, nodes: seq<QueryNode>) {
    nodes != [] ==> oldSize + 1024 + TotalOf(nodes) <= QUERY_CLIENT_VIEW_BUDGET
  }

  ghost predicate AllNodesValid(nodes: seq<QueryNode>) {
    forall i | 0 <= i < |nodes| :: ValidNode(nodes[i])
  }

  // The draft with exactly these nodes.
  ghost function WithNodes(d: Draft, nodes: seq<QueryNode>): Draft {
    d.(nodes := TableOf(nodes), order := PathsOf(nodes), bytes := 1024 + TotalOf(nodes))
  }

  lemma ListedSnoc(nodes: seq<QueryNode>, node: QueryNode)
    ensures PathsOf(nodes + [node]) == PathsOf(nodes) + [node.path]
    ensures TableOf(nodes + [node]) == TableOf(nodes)[node.path := node]
    ensures TotalOf(nodes + [node]) == TotalOf(nodes) + NodeSize(node)
  {
    assert (nodes + [node])[..|nodes|] == nodes;
  }

  lemma {:induction false} TableKeys(nodes: seq<QueryNode>)
    ensures forall path :: path in TableOf(nodes) <==> path in PathsOf(nodes)
  {
    if nodes != [] {
      var init, last := nodes[..|nodes| - 1], nodes[|nodes| - 1];
      assert nodes == init + [last];
      TableKeys(init);
      ListedSnoc(init, last);
    }
  }

  lemma NoDuplicatesSnoc(s: seq<string>, x: string)
    ensures NoDuplicates(s + [x]) <==> NoDuplicates(s) && x !in s
  {
    if NoDuplicates(s + [x]) {
      assert forall i | 0 <= i < |s| :: (s + [x])[i] == s[i];
      assert (s + [x])[|s|] == x;
    }
  }

  lemma SelectionTests(header: Header, path: string)
    requires ValidPath(header.scopePath) && ValidPath(path)
    ensures InSelection(header, path) <==>
            && Covers(header.scopePath, path)
            && (header.depth.Some? ==> SnapshotDepth(header.scopePath, path) <= header.depth.value)
  {
    CoversIsPrefix(header.scopePath, path);
    if Covers(header.scopePath, path) { DepthIsSegmentDistance(header.scopePath, path); }
  }

  lemma TreeOrderSnoc(header: Header, nodes: seq<QueryNode>, node: QueryNode)
    requires TreeOrder(header, nodes)
    ensures TreeOrder(header, nodes + [node]) <==>
            && node.path !in PathsOf(nodes) && InSelection(header, node.path)
            && (node.path == header.scopePath || Parent(node.path) in PathsOf(nodes))
  {
    ListedSnoc(nodes, node);
    NoDuplicatesSnoc(PathsOf(nodes), node.path);
    ParentsFirstSnoc(header.scopePath, PathsOf(nodes), node.path);
    assert (nodes + [node])[|nodes|] == node;
    assert forall i | 0 <= i < |nodes| :: (nodes + [node])[i] == nodes[i];
  }

  /** One more node: it is added exactly when it continues the listing. */
  lemma AddNodeIsExact(oldSize: nat, d: Draft, nodes: seq<QueryNode>, node: QueryNode)
    requires ValidPath(d.header.scopePath) && ValidNode(node)
    requires TreeOrder(d.header, nodes)
    ensures AddNode(oldSize, WithNodes(d, nodes), node).Ok? <==>
            TreeOrder(d.header, nodes + [node]) && Fits(oldSize, nodes + [node])
    ensures AddNode(oldSize, WithNodes(d, nodes), node).Ok? ==>
            AddNode(oldSize, WithNodes(d, nodes), node).value == WithNodes(d, nodes + [node])
  {
    TableKeys(nodes);
    ListedSnoc(nodes, node);
    TreeOrderSnoc(d.header, nodes, node);
    SelectionTests(d.header, node.path);
  }

  lemma {:induction false} PrefixOfTreeOrder(header: Header, oldSize: nat, nodes: seq<QueryNode>, more: seq<QueryNode>)
    requires TreeOrder(header, nodes + more) && Fits(oldSize, nodes + more)
    ensures TreeOrder(header, nodes) && Fits(oldSize, nodes)
    decreases |more|
  {
    if more == [] {
      assert nodes + more == nodes;
    } else {
      var init, last := nodes + more[..|more| - 1], more[|more| - 1];
      assert nodes + more == init + [last];
      InitOfTreeOrder(header, init, last);
      ListedSnoc(init, last);
      PrefixOfTreeOrder(header, oldSize, nodes, more[..|more| - 1]);
    }
  }

  lemma InitOfTreeOrder(header: Header, nodes: seq<QueryNode>, node: QueryNode)
    requires TreeOrder(header, nodes + [node])
    ensures TreeOrder(header, nodes)
  {
    ListedSnoc(nodes, node);
    NoDuplicatesSnoc(PathsOf(nodes), node.path);
    ParentsFirstSnoc(header.scopePath, PathsOf(nodes), node.path);
    assert forall i | 0 <= i < |nodes| :: (nodes + [node])[i] == nodes[i];
  }

  /** A page's nodes are added exactly when they continue the listing. */
  lemma {:induction false} AddNodesIsExact(oldSize: nat, d: Draft, nodes: seq<QueryNode>, more: seq<QueryNode>)
    requires ValidPath(d.header.scopePath) && AllNodesValid(more)
    requires TreeOrder(d.header, nodes) && Fits(oldSize, nodes)
    ensures AddNodes(oldSize, WithNodes(d, nodes), more).Ok? <==>
            TreeOrder(d.header, nodes + more) && Fits(oldSize, nodes + more)
    ensures AddNodes(oldSize, WithNodes(d, nodes), more).Ok? ==>
            AddNodes(oldSize, WithNodes(d, nodes), more).value == WithNodes(d, nodes + more)
    decreases |more|
  {
    if more == [] {
      assert nodes + more == nodes;
    } else {
      var next := nodes + [more[0]];
      assert nodes + more == next + more[1..];
      assert ValidNode(more[0]);
      AddNodeIsExact(oldSize, d, nodes, more[0]);
      if AddNode(oldSize, WithNodes(d, nodes), more[0]).Ok? {
        AddNodesIsExact(oldSize, d, next, more[1..]);
      } else if TreeOrder(d.header, nodes + more) && Fits(oldSize, nodes + more) {
        PrefixOfTreeOrder(d.header, oldSize, next, more[1..]);
      }
    }
  }

  // --- what the pages of a listing have in common

  predicate SamePage(a: QueryPage, b: QueryPage) {
    && a.sessionID == b.sessionID && a.queryID == b.queryID && a.snapshotID == b.snapshotID
    && a.asOf == b.asOf && a.expiresAt == b.expiresAt && a.rootName == b.rootName
    && a.baseRevision == b.baseRevision
  }

  function AllGenerations(pages: seq<QueryPage>): map<string, string> {
    if pages == [] then map[] else AllGenerations(pages[..|pages| - 1]) + pages[|pages| - 1].flowGenerations
  }

  // The node count announced last, if any page announced one.
  function LastTotal(pages: seq<QueryPage>): Option<int> {
    if pages == [] then None
    else if pages[|pages| - 1].totalNodes.Some? then pages[|pages| - 1].totalNodes
    else LastTotal(pages[..|pages| - 1])
  }

  ghost predicate GenerationsFixed(pages: seq<QueryPage>) {
    forall i, j | 0 <= i < j < |pages| :: OneGeneration(pages[i].flowGenerations, pages[j].flowGenerations)
  }

  /** No flow has two generations. */
  ghost predicate OneGeneration(a: map<string, string>, b: map<string, string>) {
    forall flow | flow in a && flow in b :: a[flow] == b[flow]
  }

  ghost predicate TotalsFixed(pages: seq<QueryPage>) {
    forall i, j | 0 <= i < j < |pages| ::
      pages[i].totalNodes.Some? && pages[j].totalNodes.Some? ==> pages[i].totalNodes == pages[j].totalNodes
  }

  ghost predicate SameListing(pages: seq<QueryPage>) {
    forall i | 0 <= i < |pages| :: pages[i].pageIndex == i && SamePage(pages[0], pages[i])
  }

  ghost predicate SomePageKnows(pages: seq<QueryPage>, flow: string) {
    exists i :: 0 <= i < |pages| && flow in pages[i].flowGenerations
  }

  lemma {:induction false} KnownFlows(pages: seq<QueryPage>, flow: string)
    ensures flow in AllGenerations(pages) <==> SomePageKnows(pages, flow)
  {
    if pages != [] {
      var k := |pages| - 1;
      KnownFlows(pages[..k], flow);
      assert forall i | 0 <= i < k :: pages[..k][i] == pages[i];
    }
  }

  lemma {:induction false} GenerationOf(pages: seq<QueryPage>, i: nat, flow: string)
    requires GenerationsFixed(pages) && i < |pages| && flow in pages[i].flowGenerations
    ensures flow in AllGenerations(pages) && AllGenerations(pages)[flow] == pages[i].flowGenerations[flow]
  {
    var k := |pages| - 1;
    if i < k {
      assert OneGeneration(pages[i].flowGenerations, pages[k].flowGenerations);
      GenerationOf(pages[..k], i, flow);
    }
  }

  lemma GenerationsSnoc(pages: seq<QueryPage>, page: QueryPage)
    requires GenerationsFixed(pages)
    ensures GenerationsFixed(pages + [page]) <==> GenerationsAgree(AllGenerations(pages), page.flowGenerations)
  {
    var all := pages + [page];
    assert all[|pages|] == page && forall i | 0 <= i < |pages| :: all[i] == pages[i];
    if GenerationsFixed(all) {
      forall flow | flow in page.flowGenerations && flow in AllGenerations(pages)
        ensures AllGenerations(pages)[flow] == page.flowGenerations[flow]
      {
        KnownFlows(pages, flow);
        var i :| 0 <= i < |pages| && flow in pages[i].flowGenerations;
        GenerationOf(pages, i, flow);
        assert OneGeneration(all[i].flowGenerations, all[|pages|].flowGenerations);
      }
    }
    if GenerationsAgree(AllGenerations(pages), page.flowGenerations) {
      forall i, j | 0 <= i < j < |all| ensures OneGeneration(all[i].flowGenerations, all[j].flowGenerations) {
        if j < |pages| {
          assert OneGeneration(pages[i].flowGenerations, pages[j].flowGenerations);
        } else {
          forall flow | flow in page.flowGenerations && flow in pages[i].flowGenerations
            ensures pages[i].flowGenerations[flow] == page.flowGenerations[flow]
          {
            GenerationOf(pages, i, flow);
          }
        }
      }
    }
  }

  lemma {:induction false} TotalsOf(pages: seq<QueryPage>)
    requires TotalsFixed(pages)
    ensures forall i | 0 <= i < |pages| :: pages[i].totalNodes.Some? ==> pages[i].totalNodes == LastTotal(pages)
    ensures LastTotal(pages).Some? ==> exists i :: 0 <= i < |pages| && pages[i].totalNodes == LastTotal(pages)
  {
    if pages != [] {
      var k := |pages| - 1;
      TotalsOf(pages[..k]);
      assert forall i | 0 <= i < k :: pages[..k][i] == pages[i];
      if pages[k].totalNodes.None? && LastTotal(pages).Some? {
        var i :| 0 <= i < k && pages[..k][i].totalNodes == LastTotal(pages[..k]);
        assert pages[i].totalNodes == LastTotal(pages);
      }
    }
  }

  lemma TotalsSnoc(pages: seq<QueryPage>, page: QueryPage)
    requires TotalsFixed(pages)
    ensures TotalsFixed(pages + [page]) <==>
            (page.totalNodes.Some? && LastTotal(pages).Some? ==> LastTotal(pages) == page.totalNodes)
  {
    TotalsOf(pages);
    var all := pages + [page];
    assert all[|pages|] == page && forall i | 0 <= i < |pages| :: all[i] == pages[i];
  }

  // --- the pages so far

  /** The header of the first page, for the selection; before any page only the selection is known. */
  ghost function HeaderOf(sel: Selection, pages: seq<QueryPage>): Header {
    if pages == [] then Header("", "", "", NO_STAMP, NO_STAMP, "", SelectedScope(sel), sel.depth, 0)
    else
      var page := pages[0];
      var revision := if page.baseRevision.Some? then page.baseRevision.value else 0;
      Header(page.sessionID, page.queryID, page.snapshotID, page.asOf, page.expiresAt, page.rootName,
             SelectedScope(sel), sel.depth, revision)
  }

  ghost predicate OpenListing(sel: Selection, oldSize: nat, pages: seq<QueryPage>) {
    && (forall i | 0 <= i < |pages| :: ValidPage(pages[i]))
    && SameListing(pages) && GenerationsFixed(pages) && TotalsFixed(pages)
    && TreeOrder(HeaderOf(sel, pages), AllNodes(pages)) && Fits(oldSize, AllNodes(pages))
  }

  ghost function DraftOf(sel: Selection, pages: seq<QueryPage>): Draft {
    WithNodes(
      Draft(HeaderOf(sel, pages), map[], [], AllGenerations(pages), 1024, LastTotal(pages)), AllNodes(pages))
  }

  lemma {:induction false} AllNodesSnoc(pages: seq<QueryPage>, page: QueryPage)
    ensures AllNodes(pages + [page]) == AllNodes(pages) + page.nodes
  {
    if pages == [] {
      assert [page][1..] == [];
      assert [] + [page] == [page];
    } else {
      AllNodesSnoc(pages[1..], page);
      assert (pages + [page])[1..] == pages[1..] + [page];
    }
  }

  lemma SameSnapshotIsSamePage(header: Header, first: QueryPage, page: QueryPage)
    requires header.revision == 0 && ValidPage(first) && ValidPage(page)
    ensures SameSnapshot(FirstHeader(header, first), page) <==> SamePage(first, page)
  {
  }

  lemma TreeOrderOfHeader(a: Header, b: Header, nodes: seq<QueryNode>)
    requires a.scopePath == b.scopePath && a.depth == b.depth
    ensures TreeOrder(a, nodes) <==> TreeOrder(b, nodes)
  {
    assert forall path :: InSelection(a, path) <==> InSelection(b, path);
  }

  lemma HeaderSnoc(sel: Selection, pages: seq<QueryPage>, page: QueryPage)
    requires SameListing(pages)
    requires forall i | 0 <= i < |pages| :: ValidPage(pages[i])
    requires ValidPage(page)
    ensures HeaderOf(sel, pages + [page]).scopePath == SelectedScope(sel) == HeaderOf(sel, pages).scopePath
    ensures HeaderOf(sel, pages + [page]).depth == sel.depth == HeaderOf(sel, pages).depth
    ensures SameListing(pages + [page]) <==>
            page.pageIndex == |pages| && (pages != [] ==> SameSnapshot(HeaderOf(sel, pages), page))
  {
    var all := pages + [page];
    assert all[|pages|] == page && forall i | 0 <= i < |pages| :: all[i] == pages[i];
    if pages != [] { SameSnapshotIsSamePage(HeaderOf(sel, []), pages[0], page); }
  }

  lemma JoinedSnoc(pages: seq<QueryPage>, page: QueryPage)
    ensures AllGenerations(pages + [page]) == AllGenerations(pages) + page.flowGenerations
    ensures LastTotal(pages + [page]) == if page.totalNodes.Some? then page.totalNodes else LastTotal(pages)
  {
    var all := pages + [page];
    assert all[..|all| - 1] == pages && all[|all| - 1] == page;
  }

  lemma FirstPageSnoc(sel: Selection, pages: seq<QueryPage>, page: QueryPage)
    ensures HeaderOf(sel, pages + [page]) ==
            if |pages| == 0 then FirstHeader(HeaderOf(sel, pages), page) else HeaderOf(sel, pages)
  {
    assert (pages + [page])[0] == if pages == [] then page else pages[0];
  }

  // The draft with which the nodes of the next page are added.
  lemma PageDraftOf(sel: Selection, pages: seq<QueryPage>, page: QueryPage)
    ensures PageDraft(DraftOf(sel, pages), page, |pages|) == WithNodes(DraftOf(sel, pages + [page]), AllNodes(pages))
    ensures WithNodes(DraftOf(sel, pages + [page]), AllNodes(pages) + page.nodes) == DraftOf(sel, pages + [page])
  {
    hide AllGenerations, LastTotal, HeaderOf, AllNodes, TableOf, TotalOf, PathsOf;
    JoinedSnoc(pages, page);
    FirstPageSnoc(sel, pages, page);
    AllNodesSnoc(pages, page);
  }

  /** The checks on the next page as a whole. */
  ghost predicate PageContinues(sel: Selection, pages: seq<QueryPage>, page: QueryPage) {
    SameListing(pages + [page]) && GenerationsFixed(pages + [page]) && TotalsFixed(pages + [page])
  }

  lemma PageChecks(sel: Selection, oldSize: nat, pages: seq<QueryPage>, page: QueryPage)
    requires OpenListing(sel, oldSize, pages) && ValidPage(page)
    ensures AddPage(oldSize, DraftOf(sel, pages), page, |pages|).Ok? ==> PageContinues(sel, pages, page)
    ensures PageContinues(sel, pages, page) ==>
            AddPage(oldSize, DraftOf(sel, pages), page, |pages|)
            == AddNodes(oldSize, PageDraft(DraftOf(sel, pages), page, |pages|), page.nodes)
  {
    HeaderSnoc(sel, pages, page);
    GenerationsSnoc(pages, page);
    TotalsSnoc(pages, page);
  }

  lemma OpenSnoc(sel: Selection, oldSize: nat, pages: seq<QueryPage>, page: QueryPage)
    requires OpenListing(sel, oldSize, pages) && ValidPage(page)
    ensures OpenListing(sel, oldSize, pages + [page]) <==>
            && PageContinues(sel, pages, page)
            && TreeOrder(HeaderOf(sel, pages + [page]), AllNodes(pages) + page.nodes)
            && Fits(oldSize, AllNodes(pages) + page.nodes)
  {
    AllNodesSnoc(pages, page);
    var all := pages + [page];
    assert all[|pages|] == page && forall i | 0 <= i < |pages| :: all[i] == pages[i];
  }

  /** One more page: it is added exactly when it continues the listing. */
  lemma AddPageIsExact(sel: Selection, oldSize: nat, pages: seq<QueryPage>, page: QueryPage)
    requires Askable(sel) && OpenListing(sel, oldSize, pages) && ValidPage(page)
    ensures AddPage(oldSize, DraftOf(sel, pages), page, |pages|).Ok? <==> OpenListing(sel, oldSize, pages + [page])
    ensures OpenListing(sel, oldSize, pages + [page]) ==>
            AddPage(oldSize, DraftOf(sel, pages), page, |pages|) == Ok(DraftOf(sel, pages + [page]))
  {
    hide TreeOrder, Fits, SelectedScope, Askable, ValidPath, PageContinues, AddPage, AddNodes, PageDraft;
    SelectionExactly(sel);
    PageChecks(sel, oldSize, pages, page);
    OpenSnoc(sel, oldSize, pages, page);
    if PageContinues(sel, pages, page) {
      var d := DraftOf(sel, pages + [page]);
      HeaderSnoc(sel, pages, page);
      PageDraftOf(sel, pages, page);
      TreeOrderOfHeader(HeaderOf(sel, pages), d.header, AllNodes(pages));
      AddNodesIsExact(oldSize, d, AllNodes(pages), page.nodes);
    }
  }

  lemma {:induction false} OpenPrefix(sel: Selection, oldSize: nat, pages: seq<QueryPage>, more: seq<QueryPage>)
    requires OpenListing(sel, oldSize, pages + more)
    ensures OpenListing(sel, oldSize, pages)
    decreases |more|
  {
    if more == [] {
      assert pages + more == pages;
    } else {
      var init, last := pages + more[..|more| - 1], more[|more| - 1];
      assert pages + more == init + [last];
      OpenInit(sel, oldSize, init, last);
      OpenPrefix(sel, oldSize, pages, more[..|more| - 1]);
    }
  }

  lemma OpenInit(sel: Selection, oldSize: nat, pages: seq<QueryPage>, page: QueryPage)
    requires OpenListing(sel, oldSize, pages + [page])
    ensures OpenListing(sel, oldSize, pages)
  {
    var all := pages + [page];
    assert forall i | 0 <= i < |pages| :: all[i] == pages[i];
    AllNodesSnoc(pages, page);
    PrefixOfTreeOrder(HeaderOf(sel, all), oldSize, AllNodes(pages), page.nodes);
    TreeOrderOfHeader(HeaderOf(sel, all), HeaderOf(sel, pages), AllNodes(pages));
  }

  lemma {:induction false} AddPagesIsExact(sel: Selection, oldSize: nat, pages: seq<QueryPage>, more: seq<QueryPage>)
    requires Askable(sel) && OpenListing(sel, oldSize, pages)
    requires forall i | 0 <= i < |more| :: ValidPage(more[i])
    ensures AddPages(oldSize, DraftOf(sel, pages), |pages|, more).Ok? <==> OpenListing(sel, oldSize, pages + more)
    ensures OpenListing(sel, oldSize, pages + more) ==>
            AddPages(oldSize, DraftOf(sel, pages), |pages|, more) == Ok(DraftOf(sel, pages + more))
    decreases |more|
  {
    hide OpenListing, DraftOf;
    if more == [] {
      assert pages + more == pages;
    } else {
      var next := pages + [more[0]];
      assert pages + more == next + more[1..];
      assert ValidPage(more[0]);
      AddPageIsExact(sel, oldSize, pages, more[0]);
      if OpenListing(sel, oldSize, next) {
        AddPagesIsExact(sel, oldSize, next, more[1..]);
      } else if OpenListing(sel, oldSize, pages + more) {
        OpenPrefix(sel, oldSize, next, more[1..]);
      }
    }
  }

  // --- the whole rebuild

  /** Pages of one snapshot, numbered from 0, agreeing on every flow generation and on the number of
      nodes, and listing that many nodes of the selection, each once and after its parent, from the
      scope on, within the budget. */
  ghost predicate LegalListing(sel: Selection, oldSize: nat, pages: seq<QueryPage>) {
    && OpenListing(sel, oldSize, pages)
    && AllNodes(pages) != []
    && forall i | 0 <= i < |pages| :: pages[i].totalNodes.Some? ==> pages[i].totalNodes.value == |AllNodes(pages)|
  }

  /** The view such a listing stands for. */
  ghost function ListedView(sel: Selection, pages: seq<QueryPage>): View {
    var bytes := 1024 + TotalOf(AllNodes(pages));
    View(HeaderOf(sel, pages), TableOf(AllNodes(pages)), map[], bytes, bytes, PathsOf(AllNodes(pages)),
         AllGenerations(pages), [])
  }

  lemma FinishIsExact(sel: Selection, oldSize: nat, pages: seq<QueryPage>)
    requires OpenListing(sel, oldSize, pages)
    ensures FinishDraft(DraftOf(sel, pages)).Ok? <==> LegalListing(sel, oldSize, pages)
    ensures LegalListing(sel, oldSize, pages) ==> FinishDraft(DraftOf(sel, pages)) == Ok(ListedView(sel, pages))
  {
    TotalsOf(pages);
    var order := PathsOf(AllNodes(pages));
    if order != [] { assert ParentBefore(HeaderOf(sel, pages).scopePath, order, 0); }
    assert pages == [] ==> AllNodes(pages) == [];
  }

  lemma OneListing(server: Server, n: nat, a: seq<QueryPage>, b: seq<QueryPage>)
    requires ServesPages(server, n, a) && ClosedListing(a)
    requires ServesPages(server, n, b) && ClosedListing(b)
    ensures a == b
  {
    forall i | 0 <= i < |a| && i < |b| ensures a[i] == b[i] {
      assert server(n + i) == Answered(Page(a[i])) && server(n + i) == Answered(Page(b[i]));
    }
    var last := if |a| < |b| then |a| - 1 else |b| - 1;
    assert a[last].complete == b[last].complete;
  }

  lemma EmptyIsOpen(sel: Selection, oldSize: nat)
    requires Askable(sel)
    ensures OpenListing(sel, oldSize, []) && DraftOf(sel, []) == StartDraft(sel)
  {
    assert PathsOf([]) == [];
    SelectionExactly(sel);
  }

  lemma ListingOutcome(sel: Selection, oldSize: nat, server: Server, n: nat, pages: seq<QueryPage>)
    requires Askable(sel) && ServesPages(server, n, pages) && ClosedListing(pages)
    ensures LegalListing(sel, oldSize, pages) ==>
            Rebuild(sel, oldSize, server, n) == (Ok(ListedView(sel, pages)), n + |pages|)
    ensures Rebuild(sel, oldSize, server, n).0.Ok? ==> LegalListing(sel, oldSize, pages)
  {
    hide OpenListing, DraftOf, AddPages, FinishDraft, ListedView, Assemble;
    EmptyIsOpen(sel, oldSize);
    SelectionExactly(sel);
    assert [] + pages == pages;
    ListedPagesAreValid(server, n, pages);
    AddPagesIsExact(sel, oldSize, [], pages);
    if OpenListing(sel, oldSize, pages) {
      ListingIsAssembled(oldSize, StartDraft(sel), 0, server, n, pages);
      FinishIsExact(sel, oldSize, pages);
    } else if Rebuild(sel, oldSize, server, n).0.Ok? {
      var used, e := AssembledFrom(oldSize, StartDraft(sel), 0, server, n);
      OneListing(server, n, used, pages);
    }
  }

  lemma ListedPagesAreValid(server: Server, n: nat, pages: seq<QueryPage>)
    requires ServesPages(server, n, pages)
    ensures forall i | 0 <= i < |pages| :: ValidPage(pages[i])
  {
  }

  ghost predicate ServesLegalListing(
      sel: Selection, oldSize: nat, server: Server, n: nat, pages: seq<QueryPage>)
  {
    ServesPages(server, n, pages) && ClosedListing(pages) && LegalListing(sel, oldSize, pages)
  }

  /** A rebuild succeeds exactly when the selection can be asked for and the server answers with the
      pages of a legal listing, and then it publishes the view that listing stands for. It fails
      before it uses an answer exactly when the selection cannot be asked for. */
  lemma RebuildIsExact(sel: Selection, oldSize: nat, server: Server, n: nat)
    ensures Rebuild(sel, oldSize, server, n).0.Ok? <==>
            Askable(sel) && exists pages :: ServesLegalListing(sel, oldSize, server, n, pages)
    ensures Rebuild(sel, oldSize, server, n).1 == n <==> !Askable(sel)
    ensures !Askable(sel) ==> Rebuild(sel, oldSize, server, n) == (Err(RequestError), n)
    ensures forall pages | Askable(sel) && ServesLegalListing(sel, oldSize, server, n, pages) ::
              Rebuild(sel, oldSize, server, n) == (Ok(ListedView(sel, pages)), n + |pages|)
  {
    hide LegalListing, ListedView, Assemble;
    SelectionExactly(sel);
    if Rebuild(sel, oldSize, server, n).0.Ok? {
      var pages, e := AssembledFrom(oldSize, StartDraft(sel), 0, server, n);
      ListingOutcome(sel, oldSize, server, n, pages);
      assert ServesLegalListing(sel, oldSize, server, n, pages);
    }
    forall pages | Askable(sel) && ServesLegalListing(sel, oldSize, server, n, pages)
      ensures Rebuild(sel, oldSize, server, n) == (Ok(ListedView(sel, pages)), n + |pages|)
    {
      ListingOutcome(sel, oldSize, server, n, pages);
    }
  }

  /** How a listing is split into pages does not matter: two legal listings of one snapshot with the
      same nodes in the same order and the same generations are rebuilt into the same view. */
  lemma SplittingDoesNotMatter(
      sel: Selection, oldSize: nat, serverA: Server, n: nat, pagesA: seq<QueryPage>,
      serverB: Server, m: nat, pagesB: seq<QueryPage>)
    requires Askable(sel)
    requires ServesLegalListing(sel, oldSize, serverA, n, pagesA)
    requires ServesLegalListing(sel, oldSize, serverB, m, pagesB)
    requires pagesA != [] && pagesB != [] && SamePage(pagesA[0], pagesB[0])
    requires AllNodes(pagesA) == AllNodes(pagesB)
    requires forall flow :: SomePageKnows(pagesA, flow) <==> SomePageKnows(pagesB, flow)
    requires forall i, j, flow | 0 <= i < |pagesA| && 0 <= j < |pagesB| ::
               flow in pagesA[i].flowGenerations && flow in pagesB[j].flowGenerations ==>
                 pagesA[i].flowGenerations[flow] == pagesB[j].flowGenerations[flow]
    ensures Rebuild(sel, oldSize, serverA, n).0.Ok?
    ensures Rebuild(sel, oldSize, serverA, n).0 == Rebuild(sel, oldSize, serverB, m).0
  {
    hide Rebuild, ServesLegalListing, ListedView, SomePageKnows, AllNodes, AllGenerations, GenerationsFixed;
    ServedParts(sel, oldSize, serverA, n, pagesA);
    ServedParts(sel, oldSize, serverB, m, pagesB);
    SameGenerations(pagesA, pagesB);
    SameListedView(sel, pagesA, pagesB);
    RebuildIsExact(sel, oldSize, serverA, n);
    RebuildIsExact(sel, oldSize, serverB, m);
  }

  lemma ServedParts(sel: Selection, oldSize: nat, server: Server, n: nat, pages: seq<QueryPage>)
    requires ServesLegalListing(sel, oldSize, server, n, pages)
    ensures pages != [] && GenerationsFixed(pages)
  {
    hide TreeOrder, Fits, ValidPage;
  }

  lemma SameListedView(sel: Selection, a: seq<QueryPage>, b: seq<QueryPage>)
    requires a != [] && b != [] && SamePage(a[0], b[0])
    requires AllNodes(a) == AllNodes(b) && AllGenerations(a) == AllGenerations(b)
    ensures ListedView(sel, a) == ListedView(sel, b)
  {
    hide AllNodes, AllGenerations;
  }

  lemma SameGenerations(a: seq<QueryPage>, b: seq<QueryPage>)
    requires GenerationsFixed(a) && GenerationsFixed(b)
    requires forall flow :: SomePageKnows(a, flow) <==> SomePageKnows(b, flow)
    requires forall i, j, flow | 0 <= i < |a| && 0 <= j < |b| ::
               flow in a[i].flowGenerations && flow in b[j].flowGenerations ==>
                 a[i].flowGenerations[flow] == b[j].flowGenerations[flow]
    ensures AllGenerations(a) == AllGenerations(b)
  {
    forall flow ensures flow in AllGenerations(a) <==> flow in AllGenerations(b) {
      KnownFlows(a, flow);
      KnownFlows(b, flow);
    }
    forall flow | flow in AllGenerations(a) ensures AllGenerations(a)[flow] == AllGenerations(b)[flow] {
      KnownFlows(a, flow);
      KnownFlows(b, flow);
      var i :| 0 <= i < |a| && flow in a[i].flowGenerations;
      var j :| 0 <= j < |b| && flow in b[j].flowGenerations;
      GenerationOf(a, i, flow);
      GenerationOf(b, j, flow);
    }
  }
}
