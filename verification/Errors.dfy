/** With which error a call fails: every failure is reported as what went wrong first. */
module Errors {
  import opened Wrappers
  import opened Paths
  import opened Slices
  import opened Documents
  import opened Views
  import opened Delta
  import opened Batches
  import opened Paging
  import opened Commits
  import opened Assembly
  import opened AssemblyProperties
  import opened Listings
  import opened Runs
  import opened Failures

  const EXHAUSTED := Failure("resource_exhausted", None)

  /** What an answer is reported as when it is not a document that was asked for: the server's own
      failure with its code and scope, or else where it went wrong. */
  function AnswerError(reply: Reply): Error {
    match reply
    case TooLarge => RequestError
    case NotOpened => CallError
    case Unanswered => CallError
    case Answered(Failed(code, scope)) =>
      if code in QUERY_ERROR_CODES && (scope.Some? ==> ValidPath(scope.value)) then Failure(code, scope)
      else ProtocolError
    case Answered(_) => ProtocolError
  }

  lemma DocumentErrorIsExact(reply: Reply, expected: Kind)
    ensures QueryDocument(reply, expected).Err? ==> QueryDocument(reply, expected).error == AnswerError(reply)
  {
  }

  // --- since calls

  /** The page is due next, but the batch would be too large with it. */
  ghost predicate OverBudget(v: View, pages: seq<QuerySince>, page: QuerySince) {
    && page.pageIndex == |pages|
    && page.sessionID == v.header.sessionID && page.queryID == v.header.queryID
    && page.fromRevision == v.header.revision
    && (pages != [] ==>
          && page.batchID == pages[0].batchID && page.targetRevision == pages[0].targetRevision
          && page.asOf == pages[0].asOf && page.expiresAt == pages[0].expiresAt)
    && Cost(pages) + page.encodedLength + 1024 > QUERY_DELTA_BATCH_BUDGET
  }

  /** The error with which an answer that does not fit ends a batch. */
  ghost function BatchError(v: View, pages: seq<QuerySince>, reply: Reply): Error {
    match reply
    case Answered(Since(page)) => if ValidSince(page) && OverBudget(v, pages, page) then EXHAUSTED else ProtocolError
    case _ => AnswerError(reply)
  }

  lemma RefusalIsExact(v: View, pages: seq<QuerySince>, replays: nat, reply: Reply)
    requires LegalPages(v, pages) && Receive(v, StateAfter(v, pages, replays), reply).Refused?
    ensures Receive(v, StateAfter(v, pages, replays), reply).error == BatchError(v, pages, reply)
  {
    hide StageAll;
    DocumentErrorIsExact(reply, SinceKind);
  }

  /** The error with which a batch that moves the revision cannot be committed. */
  ghost function CommitError(v: View, s: Staged): Error {
    if s.removed == {} || 2 * v.estimatedBytes > QUERY_CLIENT_VIEW_BUDGET then EXHAUSTED
    else if Gone(s.removed, v.header.scopePath) || exists path | path in s.changes :: Gone(s.removed, path)
    then ProtocolError
    else EXHAUSTED
  }

  lemma AbortIsExact(v: View, first: QuerySince, s: Staged)
    requires ViewOk(v) && StagedOk(v, s) && Commit(v, first, s).Aborted?
    ensures first.targetRevision != v.header.revision && Commit(v, first, s).error == CommitError(v, s)
  {
    hide ViewOk, StagedOk, Gone, Conflicts, Survivors, OrderSize, Rebuilt, Canonical, MapSize;
    ConflictsAre(v, s);
    RootSurvives(v, s.removed);
  }

  /** A batch stopped at answer m. */
  ghost predicate StoppedBy(
      v: View, server: Server, n: nat, pages: seq<QuerySince>, extra: seq<nat>, m: nat, error: Error)
  {
    Underway(v, server, n + 1, pages, extra, m) && error == BatchError(v, pages, server(m))
  }

  /** A whole batch that could not be committed. */
  ghost predicate NotCommitted(
      v: View, server: Server, n: nat, pages: seq<QuerySince>, extra: seq<nat>, s: Staged, error: Error)
  {
    && IsBatch(v, server, n + 1, pages, extra) && Means(s, Ops(pages))
    && pages[0].targetRevision != v.header.revision && !Committable(v, s)
    && error == CommitError(v, s)
  }

  lemma RefusedIsStopped(v: View, server: Server, n: nat, error: Error)
    returns (pages: seq<QuerySince>, extra: seq<nat>, m: nat)
    requires ValidPath(v.header.scopePath) && Collect(v, EMPTY_BATCH, server, n + 1).0 == Refused(error)
    ensures StoppedBy(v, server, n, pages, extra, m, error)
  {
    hide LegalPages, Collect, Receive, Serves, Transcript, BatchError;
    pages, extra, m := LoopStops(v, server, n + 1);
    RefusalIsExact(v, pages, LastExtra(extra), server(m));
  }

  lemma AbortedIsNotCommitted(v: View, server: Server, n: nat, first: QuerySince, s: Staged, error: Error)
    returns (pages: seq<QuerySince>, extra: seq<nat>)
    requires ViewOk(v) && Collect(v, EMPTY_BATCH, server, n + 1).0 == Received.Done(first, s)
    requires Commit(v, first, s) == Aborted(error)
    ensures NotCommitted(v, server, n, pages, extra, s, error)
  {
    hide ViewOk, StagedOk, Collect, Commit, CommitError, Committable, IsBatch, Means;
    ScopeIsValid(v);
    CollectedIsStagedOk(v, server, n + 1, first, s);
    AbortIsExact(v, first, s);
    CommitsExactly(v, first, s);
    pages, extra := AcceptedBatchMeans(v, server, n + 1, first, s);
  }

  /** The error of a since call that marks the view is that of the capabilities answer, if the server
      does not announce since calls; or of the reset; or of the answer at which the batch stopped; or
      that of a whole batch that could not be committed. */
  lemma SinceErrorIsExact(v: View, server: Server, n: nat, w: View, error: Error)
    requires ViewOk(v) && SinceOutcome(v, server, n).0 == Marked(w, error)
    ensures if server(n) != Answered(Capabilities(true))
            then error == if server(n) == Answered(Capabilities(false)) then Failure("unsupported_capability", None)
                          else AnswerError(server(n))
            else
              || (exists scope :: ResetsTo(v, server, n, scope) && error == Failure("reset_required", Some(scope)))
              || (exists pages, extra, m :: StoppedBy(v, server, n, pages, extra, m, error))
              || (exists pages, extra, s :: NotCommitted(v, server, n, pages, extra, s, error))
  {
    hide ViewOk, Collect, Commit, MarkStale, ResetsTo, StoppedBy, NotCommitted, AnswerError;
    ScopeIsValid(v);
    DocumentErrorIsExact(server(n), CapabilitiesKind);
    if server(n) == Answered(Capabilities(true)) {
      match Collect(v, EMPTY_BATCH, server, n + 1).0
      case ResetTo(scope) => CollectedReset(v, server, n, scope);
      case Refused(refusal) => var pages, extra, m := RefusedIsStopped(v, server, n, refusal);
      case Done(first, s) => var pages, extra := AbortedIsNotCommitted(v, server, n, first, s, error);
    }
  }

  // --- rebuilds

  /** While still in tree order, some node of the page exceeds the budget. */
  ghost predicate OutOfRoom(header: Header, oldSize: nat, nodes: seq<QueryNode>, more: seq<QueryNode>) {
    exists k: nat :: k < |more| && RoomEnds(header, oldSize, nodes, more, k)
  }

  ghost predicate RoomEnds(header: Header, oldSize: nat, nodes: seq<QueryNode>, more: seq<QueryNode>, k: nat)
    requires k < |more|
  {
    && TreeOrder(header, nodes + more[..k + 1])
    && Fits(oldSize, nodes + more[..k]) && !Fits(oldSize, nodes + more[..k + 1])
  }

  lemma RoomEndsLater(header: Header, oldSize: nat, nodes: seq<QueryNode>, more: seq<QueryNode>, k: nat)
    requires k + 1 < |more|
    ensures RoomEnds(header, oldSize, nodes, more, k + 1) <==>
            RoomEnds(header, oldSize, nodes + [more[0]], more[1..], k)
  {
    assert nodes + more[..k + 2] == nodes + [more[0]] + more[1..][..k + 1];
    assert nodes + more[..k + 1] == nodes + [more[0]] + more[1..][..k];
  }

  lemma OutOfRoomCons(header: Header, oldSize: nat, nodes: seq<QueryNode>, more: seq<QueryNode>)
    requires more != []
    ensures OutOfRoom(header, oldSize, nodes, more) <==>
            RoomEnds(header, oldSize, nodes, more, 0) || OutOfRoom(header, oldSize, nodes + [more[0]], more[1..])
  {
    hide RoomEnds;
    if OutOfRoom(header, oldSize, nodes, more) {
      var k: nat :| k < |more| && RoomEnds(header, oldSize, nodes, more, k);
      if k > 0 { RoomEndsLater(header, oldSize, nodes, more, k - 1); }
    }
    if OutOfRoom(header, oldSize, nodes + [more[0]], more[1..]) {
      var k: nat :| k < |more| - 1 && RoomEnds(header, oldSize, nodes + [more[0]], more[1..], k);
      RoomEndsLater(header, oldSize, nodes, more, k);
    }
  }

  lemma NodeErrorIsExact(oldSize: nat, d: Draft, nodes: seq<QueryNode>, node: QueryNode)
    requires ValidPath(d.header.scopePath) && ValidNode(node) && TreeOrder(d.header, nodes)
    requires AddNode(oldSize, WithNodes(d, nodes), node).Err?
    ensures AddNode(oldSize, WithNodes(d, nodes), node).error ==
            if TreeOrder(d.header, nodes + [node]) then EXHAUSTED else ProtocolError
    ensures TreeOrder(d.header, nodes + [node]) ==> !Fits(oldSize, nodes + [node])
  {
    TableKeys(nodes);
    ListedSnoc(nodes, node);
    TreeOrderSnoc(d.header, nodes, node);
    SelectionTests(d.header, node.path);
  }

  lemma {:induction false} RoomNeedsOrder(header: Header, oldSize: nat, nodes: seq<QueryNode>, more: seq<QueryNode>)
    requires more != [] && !TreeOrder(header, nodes + [more[0]])
    ensures !OutOfRoom(header, oldSize, nodes, more)
  {
    hide TreeOrder, Fits;
    forall k: nat | k < |more| ensures !RoomEnds(header, oldSize, nodes, more, k) {
      FirstOfMore(nodes, more, k);
      if TreeOrder(header, nodes + more[..k + 1]) { OrderOfPrefix(header, nodes + [more[0]], more[1..k + 1]); }
    }
  }

  lemma FirstOfMore(nodes: seq<QueryNode>, more: seq<QueryNode>, k: nat)
    requires k < |more|
    ensures nodes + more[..k + 1] == nodes + [more[0]] + more[1..k + 1]
  {
    assert more[..k + 1] == [more[0]] + more[1..k + 1];
  }

  lemma {:induction false} OrderOfPrefix(header: Header, nodes: seq<QueryNode>, more: seq<QueryNode>)
    requires TreeOrder(header, nodes + more)
    ensures TreeOrder(header, nodes)
    decreases |more|
  {
    if more == [] {
      assert nodes + more == nodes;
    } else {
      var init, last := nodes + more[..|more| - 1], more[|more| - 1];
      assert nodes + more == init + [last];
      InitOfTreeOrder(header, init, last);
      OrderOfPrefix(header, nodes, more[..|more| - 1]);
    }
  }

  lemma {:induction false} NodesErrorIsExact(oldSize: nat, d: Draft, nodes: seq<QueryNode>, more: seq<QueryNode>)
    requires ValidPath(d.header.scopePath) && AllNodesValid(more)
    requires TreeOrder(d.header, nodes) && Fits(oldSize, nodes)
    requires AddNodes(oldSize, WithNodes(d, nodes), more).Err?
    ensures AddNodes(oldSize, WithNodes(d, nodes), more).error ==
            if OutOfRoom(d.header, oldSize, nodes, more) then EXHAUSTED else ProtocolError
    decreases |more|
  {
    hide TreeOrder, Fits, OutOfRoom, WithNodes, AddNode;
    var next := nodes + [more[0]];
    assert ValidNode(more[0]);
    AddNodeIsExact(oldSize, d, nodes, more[0]);
    OutOfRoomCons(d.header, oldSize, nodes, more);
    assert nodes + more[..1] == next && nodes + more[..0] == nodes;
    if AddNode(oldSize, WithNodes(d, nodes), more[0]).Ok? {
      NodesErrorIsExact(oldSize, d, next, more[1..]);
    } else {
      NodeErrorIsExact(oldSize, d, nodes, more[0]);
      if !TreeOrder(d.header, next) { RoomNeedsOrder(d.header, oldSize, nodes, more); }
    }
  }

  /** The error with which an answer that does not fit ends a rebuild. */
  ghost function ListingError(sel: Selection, oldSize: nat, pages: seq<QueryPage>, reply: Reply): Error {
    match reply
    case Answered(Page(page)) =>
      if ValidPage(page) && PageContinues(sel, pages, page)
         && OutOfRoom(HeaderOf(sel, pages + [page]), oldSize, AllNodes(pages), page.nodes)
      then EXHAUSTED else ProtocolError
    case _ => AnswerError(reply)
  }

  lemma PageErrorIsExact(sel: Selection, oldSize: nat, pages: seq<QueryPage>, page: QueryPage)
    requires Askable(sel) && OpenListing(sel, oldSize, pages) && ValidPage(page)
    requires AddPage(oldSize, DraftOf(sel, pages), page, |pages|).Err?
    ensures AddPage(oldSize, DraftOf(sel, pages), page, |pages|).error ==
            ListingError(sel, oldSize, pages, Answered(Page(page)))
  {
    hide TreeOrder, Fits, SelectedScope, Askable, AddNodes, PageDraft, OutOfRoom;
    SelectionExactly(sel);
    PageChecks(sel, oldSize, pages, page);
    if PageContinues(sel, pages, page) {
      var d := DraftOf(sel, pages + [page]);
      HeaderSnoc(sel, pages, page);
      PageDraftOf(sel, pages, page);
      TreeOrderOfHeader(HeaderOf(sel, pages), d.header, AllNodes(pages));
      NodesErrorIsExact(oldSize, d, AllNodes(pages), page.nodes);
    } else {
      PageRefused(sel, oldSize, pages, page);
    }
  }

  lemma PageRefused(sel: Selection, oldSize: nat, pages: seq<QueryPage>, page: QueryPage)
    requires OpenListing(sel, oldSize, pages) && ValidPage(page) && !PageContinues(sel, pages, page)
    ensures AddPage(oldSize, DraftOf(sel, pages), page, |pages|) == Err(ProtocolError)
  {
    HeaderSnoc(sel, pages, page);
    GenerationsSnoc(pages, page);
    TotalsSnoc(pages, page);
  }

  lemma FittingHasRoom(header: Header, oldSize: nat, nodes: seq<QueryNode>, more: seq<QueryNode>)
    requires TreeOrder(header, nodes + more) && Fits(oldSize, nodes + more)
    ensures !OutOfRoom(header, oldSize, nodes, more)
  {
    forall k: nat | k < |more| ensures !RoomEnds(header, oldSize, nodes, more, k) {
      assert nodes + more == nodes + more[..k + 1] + more[k + 1..];
      PrefixOfTreeOrder(header, oldSize, nodes + more[..k + 1], more[k + 1..]);
    }
  }

  /** After open pages of a listing, this answer ends the rebuild with this error. */
  ghost predicate FailsAfter(
      sel: Selection, oldSize: nat, server: Server, n: nat, pages: seq<QueryPage>, error: Error)
  {
    && ServesPages(server, n, pages) && (forall i | 0 <= i < |pages| :: !pages[i].complete)
    && OpenListing(sel, oldSize, pages)
    && error == ListingError(sel, oldSize, pages, server(n + |pages|))
  }

  // One turn of a loop that fails.
  lemma FailingTurn(sel: Selection, oldSize: nat, server: Server, n: nat, pages: seq<QueryPage>)
    requires Askable(sel) && OpenListing(sel, oldSize, pages)
    ensures match PageTurn(oldSize, DraftOf(sel, pages), |pages|, server(n))
            case Over(Err(error)) => error == ListingError(sel, oldSize, pages, server(n))
            case Over(Ok(_)) => true
            case On(next) =>
              && server(n).Answered? && server(n).document.Page?
              && var page := server(n).document.page;
                 && ValidPage(page) && !page.complete
                 && OpenListing(sel, oldSize, pages + [page]) && next == DraftOf(sel, pages + [page])
  {
    hide OpenListing, DraftOf, Askable, AddPage, FinishDraft, ListingError;
    DocumentErrorIsExact(server(n), PageKind);
    if QueryDocument(server(n), PageKind).Err? {
      OtherAnswer(sel, oldSize, pages, server(n));
    } else {
      var page := server(n).document.page;
      AddPageIsExact(sel, oldSize, pages, page);
      if OpenListing(sel, oldSize, pages + [page]) {
        NotLegal(sel, oldSize, pages, page);
      } else {
        PageErrorIsExact(sel, oldSize, pages, page);
      }
    }
  }

  lemma OtherAnswer(sel: Selection, oldSize: nat, pages: seq<QueryPage>, reply: Reply)
    requires QueryDocument(reply, PageKind).Err?
    ensures ListingError(sel, oldSize, pages, reply) == AnswerError(reply)
  {
  }

  // A last page that fits, of a listing that is not legal.
  lemma NotLegal(sel: Selection, oldSize: nat, pages: seq<QueryPage>, page: QueryPage)
    requires OpenListing(sel, oldSize, pages) && OpenListing(sel, oldSize, pages + [page]) && ValidPage(page)
    ensures ListingError(sel, oldSize, pages, Answered(Page(page))) == ProtocolError
    ensures FinishDraft(DraftOf(sel, pages + [page])).Err? ==>
              FinishDraft(DraftOf(sel, pages + [page])).error == ProtocolError
  {
    hide TreeOrder, Fits, OutOfRoom;
    OpenSnoc(sel, oldSize, pages, page);
    FittingHasRoom(HeaderOf(sel, pages + [page]), oldSize, AllNodes(pages), page.nodes);
  }

  lemma ServesSnocPage(server: Server, n: nat, pages: seq<QueryPage>, page: QueryPage)
    requires ServesPages(server, n, pages) && (forall i | 0 <= i < |pages| :: !pages[i].complete)
    requires server(n + |pages|) == Answered(Page(page)) && ValidPage(page) && !page.complete
    ensures ServesPages(server, n, pages + [page])
    ensures forall i | 0 <= i < |pages + [page]| :: !(pages + [page])[i].complete
  {
  }

  lemma {:induction false} FailsFrom(
      sel: Selection, oldSize: nat, server: Server, n: nat, pages: seq<QueryPage>, m: nat, error: Error)
    returns (all: seq<QueryPage>)
    requires Askable(sel) && OpenListing(sel, oldSize, pages) && m == n + |pages|
    requires ServesPages(server, n, pages) && (forall i | 0 <= i < |pages| :: !pages[i].complete)
    requires Assemble(oldSize, DraftOf(sel, pages), |pages|, server, m).0 == Err(error)
    ensures FailsAfter(sel, oldSize, server, n, all, error)
    ensures Assemble(oldSize, DraftOf(sel, pages), |pages|, server, m).1 == n + |all| + 1
    decreases QUERY_CLIENT_VIEW_BUDGET - DraftOf(sel, pages).bytes
  {
    hide OpenListing, DraftOf, Askable, ListingError, PageTurn, ServesPages, ValidPage;
    FailingTurn(sel, oldSize, server, m, pages);
    TurnCosts(oldSize, DraftOf(sel, pages), |pages|, server(m));
    if PageTurn(oldSize, DraftOf(sel, pages), |pages|, server(m)).Over? {
      all := pages;
    } else {
      var page := server(m).document.page;
      ServesSnocPage(server, n, pages, page);
      all := FailsFrom(sel, oldSize, server, n, pages + [page], m + 1, error);
    }
  }

  /** The error of a rebuild that can be asked for is that of the first answer that does not continue
      the listing, or cannot end it. */
  lemma RebuildErrorIsExact(sel: Selection, oldSize: nat, server: Server, n: nat) returns (pages: seq<QueryPage>)
    requires Askable(sel) && Rebuild(sel, oldSize, server, n).0.Err?
    ensures FailsAfter(sel, oldSize, server, n, pages, Rebuild(sel, oldSize, server, n).0.error)
    ensures Rebuild(sel, oldSize, server, n).1 == n + |pages| + 1
  {
    hide FailsAfter, OpenListing, DraftOf, Assemble;
    SelectionExactly(sel);
    EmptyIsOpen(sel, oldSize);
    pages := FailsFrom(sel, oldSize, server, n, [], n, Rebuild(sel, oldSize, server, n).0.error);
  }
}
