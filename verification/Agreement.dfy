/** If the server's batches and listings are honest about its trees, then every view published in
    any run agrees with the server's tree at the view's revision, wherever the view is not stale. */
module Agreement {
  import opened Wrappers
  import opened Paths
  import opened Slices
  import opened Documents
  import opened Views
  import opened Delta
  import opened Commits
  import opened CommitInvariants
  import opened Assembly
  import opened AssemblyProperties
  import opened Runs

  // What the server's tree looked like in a session at a revision.
  type World = (string, int) -> NodeMap

  function At(m: NodeMap, path: string): Option<QueryNode> {
    if path in m then Some(m[path]) else None
  }

  ghost predicate Same(a: NodeMap, b: NodeMap, path: string) {
    At(a, path) == At(b, path)
  }

  /** On every path of its selection that is not stale, the view has exactly what the tree has. */
  ghost predicate Agrees(v: View, tree: NodeMap) {
    forall path | ValidPath(path) && InView(v.header, path) && !IsStale(v, path) :: Same(Table(v), tree, path)
  }

  ghost predicate AgreesWith(world: World, v: View) {
    v.header.revision >= 1 ==> Agrees(v, world(v.header.sessionID, v.header.revision))
  }

  ghost predicate HonestAt(s: Staged, before: NodeMap, after: NodeMap, path: string) {
    if Gone(s.removed, path) then path !in after
    else if StaleIn(s.invalidated, path) then true
    else At(after, path) == if path in s.changes then Some(s.changes[path]) else At(before, path)
  }

  /** An honest delta for a selection: within it, removed subtrees are absent afterwards, and every
      path that no invalidation covers is as the upserts leave it. What happens elsewhere in the
      server's tree does not matter. */
  ghost predicate HonestDelta(header: Header, s: Staged, before: NodeMap, after: NodeMap) {
    forall path | ValidPath(path) && InView(header, path) :: HonestAt(s, before, after, path)
  }

  lemma DeltaKeepsAgreement(v: View, first: QuerySince, s: Staged, w: View, before: NodeMap, after: NodeMap)
    requires ViewOk(v) && StagedOk(v, s) && Commit(v, first, s) == New(w)
    requires Agrees(v, before) && HonestDelta(v.header, s, before, after)
    ensures Agrees(w, after)
  {
    CommitRefinesMap(v, first, s);
    forall path | ValidPath(path) && InView(w.header, path) && !IsStale(w, path)
      ensures Same(Table(w), after, path)
    {
      assert InView(v.header, path);
      assert HonestAt(s, before, after, path);
      if !Gone(s.removed, path) {
        StalenessIsExact(v, first, s, w, path);
        assert Same(Table(v), before, path);
        if path in s.changes { ChangedPathsWereThere(v, s, path); }
      }
    }
  }

  lemma ChangedPathsWereThere(v: View, s: Staged, path: string)
    requires StagedOk(v, s) && path in s.changes
    ensures path in Table(v)
  {
  }

  // --- honest listings

  ghost predicate Listed(nodes: seq<QueryNode>, path: string) {
    exists i | 0 <= i < |nodes| :: nodes[i].path == path
  }

  /** The nodes a listing carries are the tree, cut to the selection of the view. */
  ghost predicate ListsTree(header: Header, nodes: seq<QueryNode>, tree: NodeMap) {
    && (forall i | 0 <= i < |nodes| :: At(tree, nodes[i].path) == Some(nodes[i]))
    && (forall path | ValidPath(path) && InView(header, path) && path in tree :: Listed(nodes, path))
  }

  ghost predicate HonestListing(world: World, sel: Selection, oldSize: nat, server: Server, n: nat) {
    var (built, next) := Rebuild(sel, oldSize, server, n);
    built.Ok? && built.value.header.revision >= 1 ==>
      forall pages | ServesPages(server, n, pages) && next == n + |pages| ::
        ListsTree(built.value.header, AllNodes(pages),
                  world(built.value.header.sessionID, built.value.header.revision))
  }

  lemma ListingAgrees(v: View, nodes: seq<QueryNode>, tree: NodeMap)
    requires ViewOk(v) && v.overrides == map[] && v.order == PathsOf(nodes)
    requires forall i | 0 <= i < |nodes| :: nodes[i].path in v.nodes && v.nodes[nodes[i].path] == nodes[i]
    requires ListsTree(v.header, nodes, tree)
    ensures Agrees(v, tree)
  {
    assert Table(v) == v.nodes;
    forall path | ValidPath(path) && InView(v.header, path) && !IsStale(v, path)
      ensures Same(Table(v), tree, path)
    {
      if path in v.nodes {
        var i :| 0 <= i < |v.order| && v.order[i] == path;
        assert nodes[i].path == path;
        assert At(tree, nodes[i].path) == Some(nodes[i]);
      }
    }
  }

  lemma RebuildAgrees(world: World, sel: Selection, oldSize: nat, server: Server, n: nat)
    requires Rebuild(sel, oldSize, server, n).0.Ok? && HonestListing(world, sel, oldSize, server, n)
    ensures AgreesWith(world, Rebuild(sel, oldSize, server, n).0.value)
  {
    var v := Rebuild(sel, oldSize, server, n).0.value;
    RebuildIsFresh(sel, oldSize, server, n);
    if v.header.revision >= 1 {
      var pages := RebuildListsItsPages(sel, oldSize, server, n);
      ListingAgrees(v, AllNodes(pages), world(v.header.sessionID, v.header.revision));
    }
  }

  // --- whole runs

  ghost predicate HonestBatch(world: World, v: View, server: Server, n: nat) {
    var received := Collect(v, EMPTY_BATCH, server, n).0;
    received.Done? ==>
      HonestDelta(v.header, received.staged,
        world(v.header.sessionID, v.header.revision),
        world(v.header.sessionID, received.first.targetRevision))
  }

  ghost predicate HonestStep(world: World, h: History, event: Event, server: Server, n: nat)
    requires HistoryOk(h)
  {
    match event
    case RebuildView(sel) => HonestListing(world, sel, CurrentSize(h), server, n)
    case ReadSince(onCurrent) =>
      PublishesBatch(h, onCurrent, server, n) ==> HonestBatch(world, Current(h), server, n + 1)
  }

  // Only a batch that is published has to be honest.
  ghost predicate PublishesBatch(h: History, onCurrent: bool, server: Server, n: nat)
    ensures PublishesBatch(h, onCurrent, server, n) ==> h != []
  {
    !server(n).NotOpened? && h != [] && onCurrent && SinceOutcome(Current(h), server, n).0.Published?
  }

  ghost predicate HonestRun(world: World, h: History, events: seq<Event>, server: Server, n: nat)
    requires HistoryOk(h)
    decreases |events|
  {
    events != [] ==>
      && HonestStep(world, h, events[0], server, n)
      && (StepIsOk(h, events[0], server, n);
          var step := Step(h, events[0], server, n);
          HonestRun(world, step.history, events[1..], server, step.next))
  }

  ghost predicate AllAgree(world: World, h: History) {
    forall i | 0 <= i < |h| :: AgreesWith(world, h[i])
  }

  ghost predicate CurrentAgrees(world: World, h: History) {
    h != [] ==> AgreesWith(world, Current(h))
  }

  /** Whatever was published between the two histories agrees, and so does the current view. */
  ghost predicate NewAgree(world: World, h: History, g: History) {
    h <= g && CurrentAgrees(world, g) && AllAgree(world, g[|h|..])
  }

  lemma NewSnoc(world: World, h: History, v: View)
    requires AgreesWith(world, v)
    ensures NewAgree(world, h, h + [v])
  {
    assert (h + [v])[|h|..] == [v];
  }

  lemma NewNone(world: World, h: History)
    requires CurrentAgrees(world, h)
    ensures NewAgree(world, h, h)
  {
  }

  lemma NewTwice(world: World, h: History, g: History, f: History)
    requires NewAgree(world, h, g) && NewAgree(world, g, f)
    ensures NewAgree(world, h, f)
  {
    assert f[|h|..] == g[|h|..] + f[|g|..];
  }

  lemma NewAndOld(world: World, h: History, g: History)
    requires AllAgree(world, h) && NewAgree(world, h, g)
    ensures AllAgree(world, g)
  {
    forall i | 0 <= i < |g| ensures AgreesWith(world, g[i]) {
      if i >= |h| { assert g[i] == g[|h|..][i - |h|]; }
    }
  }

  lemma MarkAgrees(world: World, v: View, scope: string)
    requires ViewOk(v) && ValidPath(scope) && AgreesWith(world, v)
    ensures AgreesWith(world, MarkStale(v, scope))
  {
    MarkAddsOneScope(v, scope);
    assert forall path :: InView(MarkStale(v, scope).header, path) <==> InView(v.header, path);
    assert Table(MarkStale(v, scope)) == Table(v);
  }

  lemma PublishedAgrees(world: World, v: View, server: Server, n: nat, w: View)
    requires ViewOk(v) && AgreesWith(world, v) && SinceOutcome(v, server, n).0 == Published(w)
    requires HonestBatch(world, v, server, n + 1)
    ensures AgreesWith(world, w)
  {
    var first, s := PublishedIsCommitted(v, server, n, w);
    CommitRefinesMap(v, first, s);
    DeltaKeepsAgreement(v, first, s, w,
      world(v.header.sessionID, v.header.revision), world(v.header.sessionID, first.targetRevision));
  }

  lemma SinceStepAgrees(world: World, h: History, onCurrent: bool, server: Server, n: nat)
    requires HistoryOk(h) && CurrentAgrees(world, h)
    requires PublishesBatch(h, onCurrent, server, n) ==> HonestBatch(world, Current(h), server, n + 1)
    ensures NewAgree(world, h, SinceStep(h, onCurrent, server, n).history)
  {
    hide AgreesWith, HonestBatch, ViewOk, SinceOutcome, NewAgree;
    NewNone(world, h);
    if !server(n).NotOpened? && h != [] && onCurrent {
      var v := Current(h);
      assert ViewOk(v) && AgreesWith(world, v);
      match SinceOutcome(v, server, n).0
      case Published(w) =>
        PublishedAgrees(world, v, server, n, w);
        NewSnoc(world, h, w);
      case Marked(w, error) =>
        var scope := MarkedScope(v, server, n, w, error);
        MarkAgrees(world, v, scope);
        NewSnoc(world, h, w);
      case _ =>
    }
  }

  lemma RebuildStepAgrees(world: World, h: History, sel: Selection, server: Server, n: nat)
    requires HistoryOk(h)
    requires HonestListing(world, sel, CurrentSize(h), server, n)
    ensures var step := RebuildStep(h, sel, server, n);
            if step.error.None? then NewAgree(world, h, step.history) else step.history == h
  {
    var built := Rebuild(sel, CurrentSize(h), server, n).0;
    if built.Ok? {
      RebuildAgrees(world, sel, CurrentSize(h), server, n);
      NewSnoc(world, h, built.value);
    }
  }

  lemma StepAgrees(world: World, h: History, event: Event, server: Server, n: nat)
    requires HistoryOk(h) && CurrentAgrees(world, h) && HonestStep(world, h, event, server, n)
    ensures NewAgree(world, h, Step(h, event, server, n).history)
  {
    hide AgreesWith, NewAgree, HonestBatch, HonestListing, PublishesBatch;
    match event
    case RebuildView(sel) =>
      NewNone(world, h);
      RebuildStepAgrees(world, h, sel, server, n);
    case ReadSince(onCurrent) => SinceStepAgrees(world, h, onCurrent, server, n);
  }

  /** Cache agreement over whole runs: against an honest server, every view published in a run
      agrees with the server's tree at that view's revision, on every path that is not stale. */
  lemma {:induction false} RunAgrees(world: World, h: History, events: seq<Event>, server: Server, n: nat)
    requires HistoryOk(h) && CurrentAgrees(world, h) && HonestRun(world, h, events, server, n)
    ensures NewAgree(world, h, Run(h, events, server, n).0)
    ensures AllAgree(world, h) ==> AllAgree(world, Run(h, events, server, n).0)
    decreases |events|
  {
    hide NewAgree, AllAgree, CurrentAgrees, HonestStep;
    NewNone(world, h);
    if events != [] {
      StepIsOk(h, events[0], server, n);
      StepAgrees(world, h, events[0], server, n);
      var step := Step(h, events[0], server, n);
      NewIsCurrent(world, h, step.history);
      RunAgrees(world, step.history, events[1..], server, step.next);
      NewTwice(world, h, step.history, Run(h, events, server, n).0);
    }
    if AllAgree(world, h) { NewAndOld(world, h, Run(h, events, server, n).0); }
  }

  lemma NewIsCurrent(world: World, h: History, g: History)
    requires NewAgree(world, h, g)
    ensures CurrentAgrees(world, g)
  {
  }
}
