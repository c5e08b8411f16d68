/** Every view a commit publishes keeps the view invariant; its stale list and flow generations
    are exactly accounted for. */
module CommitInvariants {
  import opened Paths
  import opened Slices
  import opened Documents
  import opened Views
  import opened Delta
  import opened Commits

  // --- the order

  ghost predicate RootsOk(scope: string, removed: set<string>) {
    forall root | root in removed :: ValidPath(root) && root != "/" && Covers(scope, root)
  }

  ghost predicate PathsOk(scope: string, order: seq<string>) {
    forall path | path in order :: ValidPath(path) && Covers(scope, path)
  }

  /** Whatever removes a parent removes its children: the survivors have no gaps. */
  lemma GoneParent(scope: string, removed: set<string>, path: string)
    requires ValidPath(scope) && RootsOk(scope, removed)
    requires ValidPath(path) && path != scope && Covers(scope, path)
    requires Gone(removed, Parent(path))
    ensures Gone(removed, path)
  {
    ParentIsBetween(scope, path);
    var root :| root in removed && CoversRemoved(root, Parent(path));
    CoversRemovedIsCovers(root, Parent(path));
    CoversTransitive(root, Parent(path), path);
    CoversRemovedIsCovers(root, path);
  }

  lemma {:induction false} SurvivorsKeepParents(scope: string, order: seq<string>, removed: set<string>)
    requires ValidPath(scope) && RootsOk(scope, removed) && PathsOk(scope, order)
    requires ParentsFirst(scope, order)
    ensures ParentsFirst(scope, Survivors(order, removed))
  {
    if order != [] {
      var n := |order| - 1;
      var init, last := order[..n], order[n];
      assert order == init + [last];
      ParentsFirstSnoc(scope, init, last);
      SurvivorsKeepParents(scope, init, removed);
      if !Gone(removed, last) {
        ParentsFirstSnoc(scope, Survivors(init, removed), last);
        SurvivorsElements(init, removed);
        if last != scope && Gone(removed, Parent(last)) { GoneParent(scope, removed, last); }
      }
    }
  }

  lemma OrderKept(v: View, s: Staged, w: View)
    requires ViewOk(v) && StagedOk(v, s)
    requires w.header.scopePath == v.header.scopePath
    requires w.order == Survivors(v.order, s.removed) && w.order != [] && w.order[0] == v.header.scopePath
    requires forall path :: path in w.order <==> path in w.nodes
    ensures OrderOk(w)
  {
    SurvivorsNoDuplicates(v.order, s.removed);
    assert PathsOk(v.header.scopePath, v.order);
    assert RootsOk(v.header.scopePath, s.removed);
    SurvivorsKeepParents(v.header.scopePath, v.order, s.removed);
  }

  // --- the two commit paths

  // A map whose entries are staged changes or nodes of the view is in order.
  lemma NodesKept(v: View, s: Staged, header: Header, m: NodeMap)
    requires ViewOk(v) && StagedOk(v, s)
    requires header.scopePath == v.header.scopePath && header.depth == v.header.depth
    requires forall path | path in m ::
               || (path in s.changes && m[path] == s.changes[path])
               || (path in v.overrides && m[path] == v.overrides[path])
               || (path in v.nodes && m[path] == v.nodes[path])
    ensures NodesOk(header, m)
  {
    assert forall path :: InView(header, path) <==> InView(v.header, path);
  }

  lemma StaleKept(v: View, s: Staged)
    requires ViewOk(v) && StagedOk(v, s)
    ensures var all := Canonical(v.staleScopes + s.invalidated);
            && StrictlyAscending(all) && StrictlyAscending(Survivors(all, s.removed))
            && (forall scope | scope in all :: ValidPath(scope))
            && (forall scope | scope in Survivors(all, s.removed) :: ValidPath(scope))
  {
    var all := Canonical(v.staleScopes + s.invalidated);
    CanonicalIsStrict(v.staleScopes + s.invalidated);
    SurvivorsKeepStrict(all, s.removed);
    SurvivorsElements(all, s.removed);
  }

  lemma OverlayKeepsInvariant(v: View, target: int, asOf: Stamp, s: Staged)
    requires ViewOk(v) && StagedOk(v, s) && target >= 0
    requires CommitOverlay(v, target, asOf, s).New?
    ensures ViewOk(CommitOverlay(v, target, asOf, s).view)
  {
    var w := CommitOverlay(v, target, asOf, s).view;
    StaleKept(v, s);
    NodesKept(v, s, w.header, w.nodes);
    NodesKept(v, s, w.header, w.overrides);
    assert ParentsFirst(w.header.scopePath, w.order);
  }

  lemma RebuildKeepsInvariant(v: View, target: int, asOf: Stamp, s: Staged)
    requires ViewOk(v) && StagedOk(v, s) && target >= 0
    requires CommitRebuild(v, target, asOf, s).New?
    ensures ViewOk(CommitRebuild(v, target, asOf, s).view)
  {
    var w := CommitRebuild(v, target, asOf, s).view;
    StaleKept(v, s);
    SurvivorsElements(v.order, s.removed);
    NodesKept(v, s, w.header, w.nodes);
    OrderKept(v, s, w);
    RebuildSize(v, s);
    RebuildRefinesMap(v, s);
  }

  /** Every committed view keeps the view invariant, whatever the batch. */
  lemma CommitKeepsInvariant(v: View, first: QuerySince, s: Staged)
    requires ViewOk(v) && StagedOk(v, s) && ValidSince(first)
    requires Commit(v, first, s).New?
    ensures ViewOk(Commit(v, first, s).view)
  {
    if s.removed == {} {
      OverlayKeepsInvariant(v, first.targetRevision, first.asOf, s);
    } else {
      RebuildKeepsInvariant(v, first.targetRevision, first.asOf, s);
    }
  }

  lemma OverlayStaysInBudget(v: View, target: int, asOf: Stamp, s: Staged)
    requires ViewOk(v) && CommitOverlay(v, target, asOf, s).New?
    ensures var w := CommitOverlay(v, target, asOf, s).view;
            w.nodes == v.nodes &&
            v.baseBytes + MapSize(v.overrides) + MapSize(w.overrides) <= QUERY_CLIENT_VIEW_BUDGET
  {
  }

  lemma RebuildStaysInBudget(v: View, target: int, asOf: Stamp, s: Staged)
    requires CommitRebuild(v, target, asOf, s).New?
    ensures v.estimatedBytes + CommitRebuild(v, target, asOf, s).view.estimatedBytes <= QUERY_CLIENT_VIEW_BUDGET
  {
  }

  /** Memory: the old and the new view always fit the budget together. After a removal they share
      nothing; without one they share the base, and the two overlays fit beside it. */
  lemma CommitStaysInBudget(v: View, first: QuerySince, s: Staged, w: View)
    requires ViewOk(v) && StagedOk(v, s) && ValidSince(first)
    requires Commit(v, first, s) == New(w)
    ensures w.estimatedBytes == 1024 + MapSize(w.nodes) + MapSize(w.overrides)
    ensures s.removed != {} ==> v.estimatedBytes + w.estimatedBytes <= QUERY_CLIENT_VIEW_BUDGET
    ensures s.removed == {} ==> w.nodes == v.nodes
    ensures s.removed == {} ==>
              v.baseBytes + MapSize(v.overrides) + MapSize(w.overrides) <= QUERY_CLIENT_VIEW_BUDGET
  {
    CommitKeepsInvariant(v, first, s);
    if s.removed == {} {
      OverlayStaysInBudget(v, first.targetRevision, first.asOf, s);
    } else {
      RebuildStaysInBudget(v, first.targetRevision, first.asOf, s);
    }
  }

  // --- staleness

  // A stale scope under a removed root covers only removed paths.
  lemma DroppedScopeCoversNothing(removed: set<string>, scope: string, path: string)
    requires forall root | root in removed :: ValidPath(root) && root != "/"
    requires ValidPath(scope) && ValidPath(path)
    requires Gone(removed, scope) && Covers(scope, path)
    ensures Gone(removed, path)
  {
    var root :| root in removed && CoversRemoved(root, scope);
    CoversRemovedIsCovers(root, scope);
    CoversTransitive(root, scope, path);
    CoversRemovedIsCovers(root, path);
  }

  // The stale list and the generations of a committed view.
  lemma CommittedLists(v: View, first: QuerySince, s: Staged, w: View)
    requires Commit(v, first, s) == New(w)
    ensures w.header.scopePath == v.header.scopePath
    ensures w.staleScopes == Survivors(Canonical(v.staleScopes + s.invalidated), s.removed)
    ensures forall flow :: flow in w.flowGenerations <==>
              flow in v.flowGenerations && (s.removed == {} || flow in w.nodes)
    ensures forall flow | flow in w.flowGenerations :: w.flowGenerations[flow] == v.flowGenerations[flow]
  {
    SurvivorsOfNone(Canonical(v.staleScopes + s.invalidated));
  }

  lemma CommittedStaleScopes(v: View, first: QuerySince, s: Staged, w: View)
    requires Commit(v, first, s) == New(w)
    ensures forall scope :: scope in w.staleScopes <==>
              (scope in v.staleScopes || scope in s.invalidated) && !Gone(s.removed, scope)
  {
    CommittedLists(v, first, s, w);
    CanonicalIsStrict(v.staleScopes + s.invalidated);
    SurvivorsElements(Canonical(v.staleScopes + s.invalidated), s.removed);
  }

  /** Staleness is exact: a path that the batch does not remove is stale afterwards exactly when
      it was stale before or some invalidation of the batch covers it. */
  lemma StalenessIsExact(v: View, first: QuerySince, s: Staged, w: View, path: string)
    requires ViewOk(v) && StagedOk(v, s) && Commit(v, first, s) == New(w)
    requires ValidPath(path) && !Gone(s.removed, path)
    ensures IsStale(w, path) <==> IsStale(v, path) || StaleIn(s.invalidated, path)
  {
    CommittedStaleScopes(v, first, s, w);
    if IsStale(v, path) || StaleIn(s.invalidated, path) {
      var scope :| (scope in v.staleScopes || scope in s.invalidated) && Covers(scope, path);
      if Gone(s.removed, scope) { DroppedScopeCoversNothing(s.removed, scope, path); }
      assert scope in w.staleScopes;
    }
  }

  // --- flow generations

  /** Every node below the root has a generation for its flow. */
  ghost predicate FlowsCovered(generations: map<string, string>, nodes: NodeMap) {
    forall path | path in nodes :: HasFlow(generations, path)
  }

  ghost predicate Covered(v: View) {
    FlowsCovered(v.flowGenerations, v.nodes)
  }

  ghost predicate FlowScope(scope: string) {
    |Segments(scope)| <= 1
  }

  lemma FlowIsPresent(v: View, path: string)
    requires ViewOk(v) && FlowScope(v.header.scopePath) && path in v.nodes && path != "/"
    ensures Flow(path) in v.nodes
  {
    FlowIsFirst(path);
    FlowCovers(path);
    CoversIsPrefix(v.header.scopePath, path);
    CoversIsPrefix(v.header.scopePath, Flow(path));
    AncestorsPresent(v, path, Flow(path));
  }

  lemma CommittedNodes(v: View, first: QuerySince, s: Staged, w: View)
    requires ViewOk(v) && Commit(v, first, s) == New(w)
    ensures w.nodes.Keys <= v.nodes.Keys
  {
    SurvivorsElements(v.order, s.removed);
  }

  /** In a view scoped at "/" or at a flow, every node keeps its generation through any batch. */
  lemma CoverageIsKept(v: View, first: QuerySince, s: Staged, w: View)
    requires ViewOk(v) && ViewOk(w) && Commit(v, first, s) == New(w)
    requires Covered(v) && FlowScope(v.header.scopePath)
    ensures Covered(w)
  {
    CommittedLists(v, first, s, w);
    CommittedNodes(v, first, s, w);
    forall path | path in w.nodes ensures HasFlow(w.flowGenerations, path) {
      assert HasFlow(v.flowGenerations, path);
      if |path| > 1 { FlowIsPresent(w, path); }
    }
  }

  /** Below a flow the scope condition is needed: the first removal batch loses every generation. */
  lemma DeepScopeLosesGenerations(v: View, first: QuerySince, s: Staged, w: View)
    requires ViewOk(v) && ViewOk(w) && Commit(v, first, s) == New(w)
    requires !FlowScope(v.header.scopePath) && s.removed != {}
    ensures w.flowGenerations == map[]
  {
    CommittedLists(v, first, s, w);
    forall flow | flow in w.flowGenerations ensures false {
      assert ViewOk(v) && flow in v.flowGenerations && flow in w.nodes;
      CoversIsPrefix(w.header.scopePath, flow);
    }
  }

  lemma UncoveredRoot(w: View)
    requires ViewOk(w) && !FlowScope(w.header.scopePath) && w.flowGenerations == map[]
    ensures !Covered(w)
  {
    assert w.order[0] in w.order;
    assert w.header.scopePath in w.nodes && |w.header.scopePath| > 1;
    assert !HasFlow(w.flowGenerations, w.header.scopePath);
  }

  lemma NoRemovalKeepsCoverage(v: View, first: QuerySince, s: Staged, w: View)
    requires Covered(v) && s.removed == {} && Commit(v, first, s) == New(w)
    ensures Covered(w)
  {
  }

  /** So a batch keeps the coverage of a view exactly when its scope is "/" or a flow, or it removes
      nothing. */
  lemma CoverageIsKeptExactly(v: View, first: QuerySince, s: Staged, w: View)
    requires ViewOk(v) && StagedOk(v, s) && ValidSince(first) && Covered(v)
    requires Commit(v, first, s) == New(w)
    ensures Covered(w) <==> FlowScope(v.header.scopePath) || s.removed == {}
  {
    CommitKeepsInvariant(v, first, s);
    if s.removed == {} {
      NoRemovalKeepsCoverage(v, first, s, w);
    } else if FlowScope(v.header.scopePath) {
      CoverageIsKept(v, first, s, w);
    } else {
      DeepScopeLosesGenerations(v, first, s, w);
      CommittedLists(v, first, s, w);
      UncoveredRoot(w);
    }
  }

  /** And from then on such a view refuses every upsert and every removal, until it is rebuilt. */
  lemma DeepScopeRefusesLater(v: View, first: QuerySince, s: Staged, w: View, op: QueryOperation)
    requires ViewOk(v) && StagedOk(v, s) && ValidSince(first)
    requires !FlowScope(v.header.scopePath) && s.removed != {} && Commit(v, first, s) == New(w)
    requires ValidOperation(op) && !op.op.InvalidateScope?
    ensures !Admissible(w, op)
  {
    CommitKeepsInvariant(v, first, s);
    DeepScopeLosesGenerations(v, first, s, w);
    CommittedLists(v, first, s, w);
    if InView(w.header, op.path) {
      CoversIsPrefix(w.header.scopePath, op.path);
      assert op.path != "/";
    }
  }
}
