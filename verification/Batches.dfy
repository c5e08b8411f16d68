/** What a batch means, independently of how it was paged, ordered or replayed, and exactly which
    answers of a server make the since loop accept it. */
module Batches {
  import opened Wrappers
  import opened Paths
  import opened Slices
  import opened Documents
  import opened Views
  import opened Delta

  // --- operations as a set

  ghost predicate SameIdentity(a: QueryOperation, b: QueryOperation) {
    a.op == b.op && a.path == b.path
  }

  ghost predicate Distinct(ops: seq<QueryOperation>) {
    forall i, j | 0 <= i < j < |ops| :: !SameIdentity(ops[i], ops[j])
  }

  /** The operation carries the generation that the view knows for the flow of its path. */
  ghost predicate NamesGeneration(v: View, op: QueryOperation) {
    && Segments(op.path) != []
    && var flow := "/" + Segments(op.path)[0];
       flow in v.flowGenerations && op.flowGeneration == Some(v.flowGenerations[flow])
  }

  /** What a view lets a batch do: update its nodes and remove its subtrees, under the generation it
      knows, and invalidate what lies in its selection; and no detail operation. */
  ghost predicate Allowed(v: View, op: QueryOperation) {
    InSelection(v.header, op.path) &&
    match op.op
    case UpsertSummary => op.path in Table(v) && (op.path == "/" || NamesGeneration(v, op))
    case RemoveSubtree => NamesGeneration(v, op)
    case InvalidateScope => true
    case _ => false
  }

  ghost predicate AllAllowed(v: View, ops: seq<QueryOperation>) {
    forall i | 0 <= i < |ops| :: Allowed(v, ops[i])
  }

  lemma SameGenerationExactly(v: View, op: QueryOperation)
    requires ValidOperationIdentity(op) && op.path != "/"
    ensures SameGeneration(v, op) <==> NamesGeneration(v, op)
  {
    ValidSegments(op.path);
  }

  /** The tests of the client admit exactly what the view allows. */
  lemma AdmissibleExactly(v: View, op: QueryOperation)
    requires ValidPath(v.header.scopePath) && ValidOperation(op)
    ensures Admissible(v, op) <==> Allowed(v, op)
  {
    hide InView, InSelection, SameGeneration, NamesGeneration;
    InViewExactly(v.header, op.path);
    if !op.op.InvalidateScope? && op.path != "/" { SameGenerationExactly(v, op); }
  }

  ghost function UpsertPaths(ops: seq<QueryOperation>): set<string> {
    set op | op in ops && op.op.UpsertSummary? :: op.path
  }

  /** A map holds exactly the nodes the upserts carry. */
  ghost predicate HoldsUpserts(m: NodeMap, ops: seq<QueryOperation>)
    requires AllValid(ops)
  {
    && m.Keys == UpsertPaths(ops)
    && forall op | op in ops && op.op.UpsertSummary? :: op.path in m && m[op.path] == op.node.value
  }

  ghost function RemovedRoots(ops: seq<QueryOperation>): set<string> {
    set op | op in ops && op.op.RemoveSubtree? :: op.path
  }

  ghost function InvalidatedScopes(ops: seq<QueryOperation>): set<string> {
    set op | op in ops && op.op.InvalidateScope? :: op.path
  }

  /** The staged maps say exactly what the operations say. */
  ghost predicate Means(s: Staged, ops: seq<QueryOperation>) {
    && AllValid(ops) && Distinct(ops)
    && HoldsUpserts(s.changes, ops)
    && s.removed == RemovedRoots(ops)
    && (forall path :: path in s.invalidated <==> path in InvalidatedScopes(ops))
  }

  ghost function Identities(ops: seq<QueryOperation>): set<string> {
    set op | op in ops :: Identity(op)
  }

  lemma {:induction false} StageAllConcat(v: View, s: Staged, a: seq<QueryOperation>, b: seq<QueryOperation>)
    requires AllValid(a) && AllValid(b) && AllValid(a + b)
    ensures StageAll(v, s, a + b) ==
            (var first := StageAll(v, s, a); if first.None? then None else StageAll(v, first.value, b))
    decreases |a|
  {
    if a == [] {
      assert a + b == b;
    } else {
      assert (a + b)[1..] == a[1..] + b;
      var next := Stage(v, s, a[0]);
      if next.Some? { StageAllConcat(v, next.value, a[1..], b); }
    }
  }

  ghost predicate Accepted(v: View, ops: seq<QueryOperation>) {
    Distinct(ops) && AllAllowed(v, ops)
  }

  ghost predicate StagedFrom(s: Staged, ops: seq<QueryOperation>) {
    Means(s, ops) && s.seen == Identities(ops)
  }

  lemma SnocOps(ops: seq<QueryOperation>, op: QueryOperation)
    requires AllValid(ops) && ValidOperation(op)
    ensures AllValid(ops + [op])
    ensures Identities(ops + [op]) == Identities(ops) + {Identity(op)}
    ensures Distinct(ops + [op]) <==> Distinct(ops) && Identity(op) !in Identities(ops)
  {
    var all := ops + [op];
    assert forall o :: o in all <==> o in ops || o == op;
    if Distinct(all) {
      assert forall i, j | 0 <= i < j < |ops| :: all[i] == ops[i] && all[j] == ops[j];
      if Identity(op) in Identities(ops) {
        var other :| other in ops && Identity(other) == Identity(op);
        var i :| 0 <= i < |ops| && ops[i] == other;
        IdentityIsInjective(other, op);
        assert SameIdentity(all[i], all[|ops|]);
      }
    }
    if Distinct(ops) && Identity(op) !in Identities(ops) {
      forall i, j | 0 <= i < j < |all| ensures !SameIdentity(all[i], all[j]) {
        if j == |ops| {
          IdentityIsInjective(ops[i], op);
          assert ops[i] in ops;
        }
      }
    }
  }

  lemma StageSnoc(v: View, s: Staged, ops: seq<QueryOperation>, op: QueryOperation)
    requires ValidPath(v.header.scopePath)
    requires AllValid(ops) && Accepted(v, ops) && StagedFrom(s, ops) && ValidOperation(op)
    ensures AllValid(ops + [op])
    ensures Stage(v, s, op).Some? <==> Accepted(v, ops + [op])
    ensures Stage(v, s, op).Some? ==> StagedFrom(Stage(v, s, op).value, ops + [op])
  {
    hide InView, SameGeneration, Allowed;
    var all := ops + [op];
    SnocOps(ops, op);
    AdmissibleExactly(v, op);
    assert forall i | 0 <= i < |ops| :: all[i] == ops[i];
    assert all[|ops|] == op;
    if Stage(v, s, op).Some? {
      assert Accepted(v, all);
      assert forall o :: o in all <==> o in ops || o == op;
      var t := Stage(v, s, op).value;
      StagedChanges(s, t, ops, op);
    }
  }

  lemma UpsertsSnoc(m: NodeMap, ops: seq<QueryOperation>, op: QueryOperation)
    requires AllValid(ops) && HoldsUpserts(m, ops) && ValidOperation(op)
    requires AllValid(ops + [op]) && Distinct(ops + [op])
    ensures HoldsUpserts(if op.op.UpsertSummary? then m[op.path := op.node.value] else m, ops + [op])
  {
    var all := ops + [op];
    var next := if op.op.UpsertSummary? then m[op.path := op.node.value] else m;
    OperationPathsSnoc(ops, op);
    assert next.Keys == UpsertPaths(all);
    forall o | o in all && o.op.UpsertSummary? ensures o.path in next && next[o.path] == o.node.value {
      if o in ops && op.op.UpsertSummary? {
        var i :| 0 <= i < |ops| && ops[i] == o;
        assert all[i] == o && all[|ops|] == op;
        assert !SameIdentity(all[i], all[|ops|]);
      }
    }
  }

  lemma StagedChanges(s: Staged, t: Staged, ops: seq<QueryOperation>, op: QueryOperation)
    requires AllValid(ops) && Distinct(ops) && Means(s, ops) && ValidOperation(op)
    requires AllValid(ops + [op]) && Distinct(ops + [op])
    requires t.changes == if op.op.UpsertSummary? then s.changes[op.path := op.node.value] else s.changes
    requires t.removed == if op.op.RemoveSubtree? then s.removed + {op.path} else s.removed
    requires t.invalidated == if op.op.InvalidateScope? then s.invalidated + [op.path] else s.invalidated
    ensures Means(t, ops + [op])
  {
    UpsertsSnoc(s.changes, ops, op);
    OperationPathsSnoc(ops, op);
  }

  lemma OperationPathsSnoc(ops: seq<QueryOperation>, op: QueryOperation)
    ensures UpsertPaths(ops + [op]) == UpsertPaths(ops) + if op.op.UpsertSummary? then {op.path} else {}
    ensures RemovedRoots(ops + [op]) == RemovedRoots(ops) + if op.op.RemoveSubtree? then {op.path} else {}
    ensures InvalidatedScopes(ops + [op]) == InvalidatedScopes(ops) + if op.op.InvalidateScope? then {op.path} else {}
  {
    assert forall o :: o in ops + [op] <==> o in ops || o == op;
  }

  /** Staging accepts exactly the distinct operations the view allows, and then means what they say. */
  lemma {:induction false} StagingIsExact(v: View, ops: seq<QueryOperation>)
    requires ValidPath(v.header.scopePath) && AllValid(ops)
    ensures StageAll(v, NOTHING_STAGED, ops).Some? <==> Accepted(v, ops)
    ensures StageAll(v, NOTHING_STAGED, ops).Some? ==> StagedFrom(StageAll(v, NOTHING_STAGED, ops).value, ops)
    decreases |ops|
  {
    if ops != [] {
      var init, last := ops[..|ops| - 1], ops[|ops| - 1];
      assert ops == init + [last];
      StagingIsExact(v, init);
      StageAllConcat(v, NOTHING_STAGED, init, [last]);
      if Accepted(v, init) {
        var s := StageAll(v, NOTHING_STAGED, init).value;
        StageSnoc(v, s, init, last);
        assert StageAll(v, s, [last]) == Stage(v, s, last) by { assert [last][1..] == []; }
      } else {
        NotAcceptedPrefix(v, init, last);
      }
    } else {
      assert UpsertPaths(ops) == {} && RemovedRoots(ops) == {} && InvalidatedScopes(ops) == {} && Identities(ops) == {};
    }
  }

  lemma NotAcceptedPrefix(v: View, init: seq<QueryOperation>, last: QueryOperation)
    requires AllValid(init) && ValidOperation(last) && AllValid(init + [last])
    requires !Accepted(v, init)
    ensures !Accepted(v, init + [last])
  {
    var all := init + [last];
    assert forall i | 0 <= i < |init| :: all[i] == init[i];
  }

  lemma SameOperationsMeanAlike(
      opsA: seq<QueryOperation>, opsB: seq<QueryOperation>, a: Staged, b: Staged)
    requires forall op :: op in opsA <==> op in opsB
    requires Means(a, opsA) && Means(b, opsB)
    ensures a.changes == b.changes && a.removed == b.removed
    ensures forall path :: path in a.invalidated <==> path in b.invalidated
  {
    assert UpsertPaths(opsA) == UpsertPaths(opsB);
    forall path | path in a.changes ensures a.changes[path] == b.changes[path] {
      var op :| op in opsA && op.op.UpsertSummary? && op.path == path;
      assert op in opsB;
    }
    assert RemovedRoots(opsA) == RemovedRoots(opsB);
    assert InvalidatedScopes(opsA) == InvalidatedScopes(opsB);
  }

  lemma SameStagingCommitsAlike(v: View, firstA: QuerySince, firstB: QuerySince, a: Staged, b: Staged)
    requires a.changes == b.changes && a.removed == b.removed
    requires Canonical(v.staleScopes + a.invalidated) == Canonical(v.staleScopes + b.invalidated)
    requires firstA.targetRevision == firstB.targetRevision && firstA.asOf == firstB.asOf
    ensures Commit(v, firstA, a) == Commit(v, firstB, b)
  {
    hide CommitOverlay, CommitRebuild;
    OverlayAlike(v, firstA.targetRevision, firstA.asOf, a, b);
    RebuildAlike(v, firstA.targetRevision, firstA.asOf, a, b);
  }

  lemma OverlayAlike(v: View, target: int, asOf: Stamp, a: Staged, b: Staged)
    requires a.changes == b.changes
    requires Canonical(v.staleScopes + a.invalidated) == Canonical(v.staleScopes + b.invalidated)
    ensures CommitOverlay(v, target, asOf, a) == CommitOverlay(v, target, asOf, b)
  {
    hide Canonical, MapSize;
  }

  lemma RebuildAlike(v: View, target: int, asOf: Stamp, a: Staged, b: Staged)
    requires a.changes == b.changes && a.removed == b.removed
    requires Canonical(v.staleScopes + a.invalidated) == Canonical(v.staleScopes + b.invalidated)
    ensures CommitRebuild(v, target, asOf, a) == CommitRebuild(v, target, asOf, b)
  {
    hide Conflicts, Survivors, OrderSize, Rebuilt, Canonical;
    ConflictsAlike(a, b, v.order);
  }

  lemma ConflictsAlike(a: Staged, b: Staged, paths: seq<string>)
    requires a.changes == b.changes && a.removed == b.removed
    ensures Conflicts(a, paths) == Conflicts(b, paths)
  {
  }

  /** Order and paging do not matter: batches with the same operations commit alike. */
  lemma SameOperationsCommitAlike(
      v: View, opsA: seq<QueryOperation>, opsB: seq<QueryOperation>,
      firstA: QuerySince, firstB: QuerySince, a: Staged, b: Staged)
    requires forall op :: op in opsA <==> op in opsB
    requires Means(a, opsA) && Means(b, opsB)
    requires firstA.targetRevision == firstB.targetRevision && firstA.asOf == firstB.asOf
    ensures Commit(v, firstA, a) == Commit(v, firstB, b)
  {
    SameOperationsMeanAlike(opsA, opsB, a, b);
    SameElementsSameCanonical(v.staleScopes + a.invalidated, v.staleScopes + b.invalidated);
    SameStagingCommitsAlike(v, firstA, firstB, a, b);
  }
}
