/** The imperative commit of a staged batch into a freshly allocated view. Nothing an existing view
    holds is written; without removals the new view shares the base map, the order and the
    generations of the old one. */
module CommitCalls {
  import opened Slices
  import opened Documents
  import opened Views
  import opened Delta
  import opened Commits
  import opened Snapshots

  // A new overlay: every old entry, then every change.
  method Overlay(snapshot: QuerySnapshot, changes: NodeMap) returns (overrides: Table<QueryNode>)
    requires snapshot.Valid()
    ensures fresh(overrides) && overrides.entries == snapshot.Contents().overrides + changes
  {
    overrides := new Table(map[]);
    if snapshot.overrides != null { CopyInto(overrides, snapshot.overrides.entries); }
    CopyInto(overrides, changes);
    assert overrides.entries == snapshot.Contents().overrides + changes;
  }

  // What the caller of a commit gets: nothing and the error, or a new object with these contents.
  ghost predicate Delivers(committed: Committed, result: QuerySnapshot?, error: Error)
    reads if result == null then {} else {result} + result.Footprint()
  {
    if result == null then committed == Aborted(error)
    else result.Valid() && committed.New? && result.Contents() == committed.view
  }

  // The commit without removals.
  method CommitShared(snapshot: QuerySnapshot, target: int, asOf: Stamp, s: Staged)
    returns (result: QuerySnapshot?, error: Error)
    requires snapshot.Valid()
    ensures result != null ==> fresh(result) && result.nodes == snapshot.nodes && result.order == snapshot.order
    ensures Delivers(CommitOverlay(snapshot.Contents(), target, asOf, s), result, error)
  {
    var overrides := Overlay(snapshot, s.changes);
    var extra := TotalSize(overrides.entries);
    error := BUDGET_EXCEEDED;
    if snapshot.baseBytes + extra + extra > QUERY_CLIENT_VIEW_BUDGET { return null, error; }
    var items, count := SortedScopes(snapshot.stale[..snapshot.staleCount], s.invalidated);
    result := new QuerySnapshot.Of(
      snapshot.header.(revision := target, asOf := asOf), snapshot.nodes, overrides, snapshot.baseBytes,
      snapshot.baseBytes + extra, snapshot.order, snapshot.flowGenerations, items, count);
  }

  // for each path of the old order: drop it, or copy its node into the new maps
  method CopySurvivors(snapshot: QuerySnapshot, s: Staged, nodes: Table<QueryNode>, order: PathList)
    returns (conflict: bool, bytes: int)
    requires snapshot.Valid() && nodes.entries == map[] && order.items == []
    requires nodes !in snapshot.Footprint() && order !in snapshot.Footprint()
    modifies nodes, order
    ensures conflict == Conflicts(s, snapshot.Contents().order)
    ensures !conflict ==>
              && order.items == Survivors(snapshot.Contents().order, s.removed)
              && nodes.entries == Rebuilt(snapshot.Contents(), s.changes, order.items)
              && bytes == 1024 + OrderSize(snapshot.Contents(), s.changes, order.items)
  {
    hide Conflicts, Survivors, Rebuilt, OrderSize, Gone, NewNode;
    ghost var v := snapshot.Contents();
    var paths := snapshot.order.items;
    bytes := 1024;
    NoPaths(v, s);
    for i := 0 to |paths|
      invariant snapshot.Valid() && snapshot.Contents() == v && paths == v.order
      invariant order.items == Survivors(paths[..i], s.removed)
      invariant nodes.entries == Rebuilt(v, s.changes, order.items)
      invariant bytes == 1024 + OrderSize(v, s.changes, order.items)
      invariant !Conflicts(s, paths[..i])
    {
      var path := paths[i];
      SurvivorsNext(paths, i, s.removed);
      ConflictsNext(s, paths, i);
      var deletePath := UnderRemoved(s.removed, path);
      if deletePath {
        if path in s.changes { ConflictsWithin(s, paths, i + 1); return true, bytes; }
      } else {
        var node, _ := snapshot.Node(path);
        if path in s.changes { node := s.changes[path]; }
        RebuiltSnoc(v, s.changes, order.items, path);
        OrderSizeSnoc(v, s.changes, order.items, path);
        NewNodeIs(v, s.changes, path);
        nodes.entries := nodes.entries[path := node];
        order.items := order.items + [path];
        bytes := bytes + NodeSize(node);
      }
    }
    assert paths[..|paths|] == paths;
    conflict := false;
  }

  lemma NoPaths(v: View, s: Staged)
    ensures Survivors([], s.removed) == [] && Rebuilt(v, s.changes, []) == map[]
    ensures OrderSize(v, s.changes, []) == 0 && !Conflicts(s, [])
  {
  }

  lemma NewNodeIs(v: View, changes: NodeMap, path: string)
    ensures NewNode(v, changes, path) == if path in changes then changes[path] else NodeOrZero(v, path)
  {
  }

  lemma ConflictsNext(s: Staged, paths: seq<string>, i: nat)
    requires i < |paths|
    ensures Conflicts(s, paths[..i + 1]) <==>
            Conflicts(s, paths[..i]) || (paths[i] in s.changes && Gone(s.removed, paths[i]))
  {
    assert paths[..i + 1] == paths[..i] + [paths[i]];
  }

  lemma ConflictsWithin(s: Staged, paths: seq<string>, i: nat)
    requires i <= |paths| && Conflicts(s, paths[..i])
    ensures Conflicts(s, paths)
  {
  }

  lemma OrderSizeSnoc(v: View, changes: NodeMap, paths: seq<string>, path: string)
    ensures OrderSize(v, changes, paths + [path]) == OrderSize(v, changes, paths) + NodeSize(NewNode(v, changes, path))
  {
    assert (paths + [path])[..|paths|] == paths;
  }

  // The generations of the flows that are still in the view.
  method KeepGenerations(known: map<string, string>, nodes: NodeMap) returns (kept: Table<string>)
    ensures fresh(kept)
    ensures kept.entries == map flow | flow in known && flow in nodes :: known[flow]
  {
    kept := new Table(map[]);
    var left := known.Keys;
    while left != {}
      invariant left <= known.Keys && fresh(kept)
      invariant kept.entries == map flow | flow in known && flow in nodes && flow !in left :: known[flow]
      decreases left
    {
      var flow :| flow in left;
      if flow in nodes { kept.entries := kept.entries[flow := known[flow]]; }
      left := left - {flow};
    }
  }

  // The scopes that stay stale after a removal.
  method KeepScopes(known: seq<string>, more: seq<string>, removed: set<string>)
    returns (items: array<string>, count: nat)
    ensures fresh(items) && count <= items.Length
    ensures items[..count] == Survivors(Canonical(known + more), removed)
  {
    items, count := SortedScopes(known, more);
    count := DropRemoved(items, count, removed);
  }

  // The commit with removals.
  method CommitAnew(snapshot: QuerySnapshot, target: int, asOf: Stamp, s: Staged)
    returns (result: QuerySnapshot?, error: Error)
    requires snapshot.Valid()
    ensures result != null ==> fresh(result)
    ensures Delivers(CommitRebuild(snapshot.Contents(), target, asOf, s), result, error)
  {
    hide Conflicts, Survivors, Rebuilt, OrderSize, Canonical;
    error := BUDGET_EXCEEDED;
    if snapshot.estimatedBytes * 2 > QUERY_CLIENT_VIEW_BUDGET { return null, error; }
    var nodes := new Table<QueryNode>(map[]);
    var order := new PathList([]);
    var conflict, bytes := CopySurvivors(snapshot, s, nodes, order);
    if conflict || order.items == [] || order.items[0] != snapshot.header.scopePath {
      return null, ProtocolError;
    }
    if snapshot.estimatedBytes + bytes > QUERY_CLIENT_VIEW_BUDGET { return null, error; }
    var generations := KeepGenerations(snapshot.flowGenerations.entries, nodes.entries);
    var items, count := KeepScopes(snapshot.stale[..snapshot.staleCount], s.invalidated, s.removed);
    result := new QuerySnapshot.Of(
      snapshot.header.(revision := target, asOf := asOf), nodes, null, bytes, bytes, order, generations, items, count);
  }
}
