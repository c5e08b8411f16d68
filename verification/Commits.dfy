/** What committing an accepted batch does to a view. */
module Commits {
  import opened Paths
  import opened Slices
  import opened Documents
  import opened Views
  import opened Delta
  import opened Batches

  /** What staging guarantees about the maps a commit works on. */
  ghost predicate StagedOk(v: View, s: Staged) {
    && (forall path | path in s.changes ::
          && path in v.nodes && InView(v.header, path)
          && ValidNode(s.changes[path]) && s.changes[path].path == path)
    && (forall root | root in s.removed :: ValidPath(root) && root != "/" && InView(v.header, root))
    && (forall scope | scope in s.invalidated :: ValidPath(scope) && InView(v.header, scope))
  }

  lemma AcceptedIsStagedOk(v: View, ops: seq<QueryOperation>, s: Staged)
    requires ViewOk(v) && AllValid(ops) && Accepted(v, ops) && Means(s, ops)
    ensures StagedOk(v, s)
  {
    forall path | path in s.changes
      ensures path in v.nodes && InView(v.header, path) && ValidNode(s.changes[path]) && s.changes[path].path == path
    {
      var op :| op in ops && op.op.UpsertSummary? && op.path == path;
      assert ValidOperation(op) && Allowed(v, op);
      InViewExactly(v.header, op.path);
    }
    forall root | root in s.removed ensures ValidPath(root) && root != "/" && InView(v.header, root) {
      var op :| op in ops && op.op.RemoveSubtree? && op.path == root;
      assert ValidOperation(op) && Allowed(v, op);
      InViewExactly(v.header, op.path);
    }
    forall scope | scope in s.invalidated ensures ValidPath(scope) && InView(v.header, scope) {
      var op :| op in ops && op.op.InvalidateScope? && op.path == scope;
      assert ValidOperation(op) && Allowed(v, op);
      InViewExactly(v.header, op.path);
    }
  }

  // --- the map a view stands for

  /** The simple map semantics of a batch: drop every removed subtree, then overwrite. */
  ghost function Updated(m: NodeMap, s: Staged): NodeMap {
    map path | path in m && !Gone(s.removed, path) :: if path in s.changes then s.changes[path] else m[path]
  }

  lemma OverlayRefinesMap(nodes: NodeMap, overrides: NodeMap, s: Staged)
    requires overrides.Keys <= nodes.Keys && s.changes.Keys <= nodes.Keys && s.removed == {}
    ensures nodes + (overrides + s.changes) == Updated(nodes + overrides, s)
  {
    var left, right := nodes + (overrides + s.changes), Updated(nodes + overrides, s);
    assert forall path :: !Gone(s.removed, path);
    assert left.Keys == nodes.Keys;
    assert right.Keys == nodes.Keys;
  }

  lemma RebuildRefinesMap(v: View, s: Staged)
    requires ViewOk(v)
    ensures Rebuilt(v, s.changes, Survivors(v.order, s.removed)) == Updated(Table(v), s)
  {
    SurvivorsElements(v.order, s.removed);
    RebuiltIsUpdated(v, s, Survivors(v.order, s.removed));
  }

  lemma RebuiltIsUpdated(v: View, s: Staged, order: seq<string>)
    requires ViewOk(v)
    requires forall x :: x in order <==> x in v.order && !Gone(s.removed, x)
    ensures Rebuilt(v, s.changes, order) == Updated(Table(v), s)
  {
    assert forall x :: x in v.order <==> x in Table(v);
  }

  ghost predicate DoesWhatItSays(v: View, s: Staged, w: View) {
    && Table(w) == Updated(Table(v), s)
    && w.order == Survivors(v.order, s.removed)
  }

  lemma OverlayCommitRefinesMap(v: View, target: int, asOf: Stamp, s: Staged)
    requires ViewOk(v) && StagedOk(v, s) && s.removed == {}
    requires CommitOverlay(v, target, asOf, s).New?
    ensures DoesWhatItSays(v, s, CommitOverlay(v, target, asOf, s).view)
  {
    var w := CommitOverlay(v, target, asOf, s).view;
    SurvivorsOfNone(v.order);
    assert Table(w) == v.nodes + (v.overrides + s.changes);
    OverlayRefinesMap(v.nodes, v.overrides, s);
  }

  lemma RebuildFields(v: View, target: int, asOf: Stamp, s: Staged)
    requires CommitRebuild(v, target, asOf, s).New?
    ensures var w := CommitRebuild(v, target, asOf, s).view;
            && w.order == Survivors(v.order, s.removed)
            && Table(w) == Rebuilt(v, s.changes, w.order)
  {
    var w := CommitRebuild(v, target, asOf, s).view;
    assert w.nodes + map[] == w.nodes;
  }

  lemma RebuildCommitRefinesMap(v: View, target: int, asOf: Stamp, s: Staged)
    requires ViewOk(v)
    requires CommitRebuild(v, target, asOf, s).New?
    ensures DoesWhatItSays(v, s, CommitRebuild(v, target, asOf, s).view)
  {
    RebuildFields(v, target, asOf, s);
    RebuildRefinesMap(v, s);
  }

  /** Both commit paths do to the view's map what the batch says, and filter the order alike. */
  lemma CommitRefinesMap(v: View, first: QuerySince, s: Staged)
    requires ViewOk(v) && StagedOk(v, s)
    requires Commit(v, first, s).New?
    ensures DoesWhatItSays(v, s, Commit(v, first, s).view)
    ensures Commit(v, first, s).view.header == v.header.(revision := first.targetRevision, asOf := first.asOf)
  {
    if s.removed == {} {
      OverlayCommitRefinesMap(v, first.targetRevision, first.asOf, s);
    } else {
      RebuildCommitRefinesMap(v, first.targetRevision, first.asOf, s);
    }
  }

  // --- when a batch is committed

  ghost predicate OverlayFits(v: View, s: Staged) {
    v.baseBytes + 2 * MapSize(v.overrides + s.changes) <= QUERY_CLIENT_VIEW_BUDGET
  }

  ghost predicate RebuildFits(v: View, s: Staged) {
    && 2 * v.estimatedBytes <= QUERY_CLIENT_VIEW_BUDGET
    && v.estimatedBytes + 1024 + MapSize(Updated(Table(v), s)) <= QUERY_CLIENT_VIEW_BUDGET
  }

  ghost predicate Committable(v: View, s: Staged) {
    if s.removed == {} then OverlayFits(v, s)
    else
      && RebuildFits(v, s)
      && (forall path | path in s.changes :: !Gone(s.removed, path))
      && !Gone(s.removed, v.header.scopePath)
  }

  // --- sizes

  lemma {:induction false} OrderSizeIsMapSize(v: View, changes: NodeMap, paths: seq<string>)
    requires NoDuplicates(paths)
    ensures OrderSize(v, changes, paths) == MapSize(Rebuilt(v, changes, paths))
  {
    if paths == [] {
      assert Rebuilt(v, changes, paths) == map[];
    } else {
      var init, last := paths[..|paths| - 1], paths[|paths| - 1];
      OrderSizeIsMapSize(v, changes, init);
      assert last !in init;
      assert paths == init + [last];
      RebuiltSnoc(v, changes, init, last);
      MapSizeInsert(Rebuilt(v, changes, init), last, NewNode(v, changes, last));
    }
  }

  lemma RebuiltSnoc(v: View, changes: NodeMap, paths: seq<string>, path: string)
    ensures Rebuilt(v, changes, paths + [path]) == Rebuilt(v, changes, paths)[path := NewNode(v, changes, path)]
  {
  }

  lemma RebuildSize(v: View, s: Staged)
    requires ViewOk(v)
    ensures OrderSize(v, s.changes, Survivors(v.order, s.removed)) == MapSize(Updated(Table(v), s))
  {
    SurvivorsNoDuplicates(v.order, s.removed);
    OrderSizeIsMapSize(v, s.changes, Survivors(v.order, s.removed));
    RebuildRefinesMap(v, s);
  }

  lemma ConflictsAre(v: View, s: Staged)
    requires ViewOk(v) && StagedOk(v, s)
    ensures Conflicts(s, v.order) <==> exists path | path in s.changes :: Gone(s.removed, path)
  {
  }

  lemma RebuildCommitsExactly(v: View, target: int, asOf: Stamp, s: Staged)
    requires ViewOk(v) && StagedOk(v, s)
    ensures CommitRebuild(v, target, asOf, s).New? <==>
            && RebuildFits(v, s)
            && (forall path | path in s.changes :: !Gone(s.removed, path))
            && !Gone(s.removed, v.header.scopePath)
  {
    RebuildSize(v, s);
    ConflictsAre(v, s);
    RootSurvives(v, s.removed);
  }

  /** A batch that moves the revision is committed exactly when it fits the memory budget, changes
      nothing it removes, and leaves the root. */
  lemma CommitsExactly(v: View, first: QuerySince, s: Staged)
    requires ViewOk(v) && StagedOk(v, s) && first.targetRevision != v.header.revision
    ensures Commit(v, first, s).New? <==> Committable(v, s)
  {
    if s.removed != {} { RebuildCommitsExactly(v, first.targetRevision, first.asOf, s); }
  }

  // The first survivor is the root exactly when the root was not removed.
  lemma RootSurvives(v: View, removed: set<string>)
    requires ViewOk(v)
    ensures var order := Survivors(v.order, removed);
            (order != [] && order[0] == v.header.scopePath) <==> !Gone(removed, v.header.scopePath)
  {
    FirstSurvives(v.order, removed);
  }

  lemma FirstSurvives(s: seq<string>, removed: set<string>)
    requires s != []
    ensures var r := Survivors(s, removed); (r != [] && r[0] == s[0]) <==> !Gone(removed, s[0])
  {
    SurvivorsElements(s, removed);
    if !Gone(removed, s[0]) { SurvivorsHead(s, removed); }
    var r := Survivors(s, removed);
    assert r != [] ==> r[0] in r;
  }

  lemma {:induction false} SurvivorsHead(s: seq<string>, removed: set<string>)
    requires s != [] && !Gone(removed, s[0])
    ensures Survivors(s, removed) != [] && Survivors(s, removed)[0] == s[0]
  {
    if |s| > 1 { SurvivorsHead(s[..|s| - 1], removed); }
  }
}
