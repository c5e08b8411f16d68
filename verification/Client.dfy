/** The client: one published view, replaced but never changed, under the client's lock. */
module Client {
  import opened Wrappers
  import opened Paths
  import opened Documents
  import opened Views
  import opened Delta
  import opened Assembly
  import opened AssemblyProperties
  import opened Runs
  import opened Snapshots
  import opened SinceCalls
  import opened CommitCalls
  import opened Sync
  import opened PageCalls

  class TaklerServiceClient {
    var queryCurrent: QuerySnapshot?
    ghost var history: History  // the contents of every view ever published

    ghost predicate Valid()
      reads this, if queryCurrent == null then {} else {queryCurrent} + queryCurrent.Footprint()
    {
      && HistoryOk(history)
      && (queryCurrent == null <==> history == [])
      && (queryCurrent != null ==> queryCurrent.Valid() && queryCurrent.Contents() == Current(history))
    }

    constructor ()
      ensures Valid() && queryCurrent == null && history == []
    {
      queryCurrent := null;
      history := [];
    }

    // Makes this view the current one.
    method Publish(view: QuerySnapshot, ghost contents: View)
      requires view.Valid() && contents == view.Contents() && ViewOk(contents) && HistoryOk(history)
      modifies this
      ensures Valid() && queryCurrent == view && history == old(history) + [contents]
    {
      queryCurrent := view;
      history := history + [contents];
      HistorySnoc(old(history), contents);
    }

    // markQueryStale: republish the same view with one more stale scope
    method MarkQueryStale(snapshot: QuerySnapshot, scope: string)
      requires Valid() && ValidPath(scope)
      modifies this
      ensures Valid()
      ensures if old(queryCurrent) != snapshot
              then queryCurrent == old(queryCurrent) && history == old(history)
              else
                && fresh(queryCurrent)
                && history == old(history) + [MarkStale(Current(old(history)), scope)]
                && queryCurrent.nodes == snapshot.nodes && queryCurrent.order == snapshot.order
    {
      if queryCurrent != snapshot { return; }
      assert ViewOk(Current(history));
      MarkAddsOneScope(Current(history), scope);
      var items, count := SortedScopes(snapshot.stale[..snapshot.staleCount], [scope]);
      var copy := new QuerySnapshot.Of(
        snapshot.header, snapshot.nodes, snapshot.overrides, snapshot.baseBytes, snapshot.estimatedBytes,
        snapshot.order, snapshot.flowGenerations, items, count);
      Publish(copy, MarkStale(Current(history), scope));
    }

    // Commit what the since loop collected.
    method CommitBatch(snapshot: QuerySnapshot, first: QuerySince, staged: Staged)
      returns (result: QuerySnapshot?, error: Error)
      requires Valid() && queryCurrent == snapshot && first.targetRevision != snapshot.header.revision
      ensures result != null ==> fresh(result)
      ensures Delivers(Commit(snapshot.Contents(), first, staged), result, error)
    {
      if staged.removed == {} {
        result, error := CommitShared(snapshot, first.targetRevision, first.asOf, staged);
      } else {
        result, error := CommitAnew(snapshot, first.targetRevision, first.asOf, staged);
      }
    }

    // A collected batch: publish the committed view, keep the old one, or mark it stale.
    method FinishBatch(snapshot: QuerySnapshot, first: QuerySince, staged: Staged, ghost committed: Committed)
      returns (result: QuerySnapshot?, error: Option<Error>)
      requires Valid() && queryCurrent == snapshot
      requires committed == Commit(snapshot.Contents(), first, staged)
      requires committed.New? ==> ViewOk(committed.view)
      modifies this
      ensures Valid()
      ensures committed.Same? ==> history == old(history) && error == None && result == snapshot
      ensures committed.New? ==> history == old(history) + [committed.view] && error == None
      ensures committed.Aborted? ==>
                && history == old(history) + [MarkStale(Current(old(history)), snapshot.header.scopePath)]
                && error == Some(committed.error)
      ensures result == if error.None? then queryCurrent else null
      ensures if committed.Same? then queryCurrent == snapshot else fresh(queryCurrent)
    {
      if first.targetRevision == snapshot.header.revision { return snapshot, None; }
      var view, failure := CommitBatch(snapshot, first, staged);
      if view == null {
        assert ViewOk(Current(history));
        MarkQueryStale(snapshot, snapshot.header.scopePath);
        return null, Some(failure);
      }
      Publish(view, committed.view);
      return view, None;
    }

    // What follows the since loop.
    method FinishSince(snapshot: QuerySnapshot, received: Received, ghost outcome: Outcome)
      returns (result: QuerySnapshot?, error: Option<Error>)
      requires Valid() && queryCurrent == snapshot && !received.More?
      requires outcome == Finish(snapshot.Contents(), received)
      requires outcome.Published? ==> ViewOk(outcome.view)
      requires received.ResetTo? ==> ValidPath(received.scope)
      modifies this
      ensures Valid()
      ensures history == Record(old(history), outcome, 0).history
      ensures error == Record(old(history), outcome, 0).error
      ensures result == if error.None? then queryCurrent else null
      ensures if outcome.Unchanged? || outcome.Rejected? then queryCurrent == snapshot else fresh(queryCurrent)
    {
      match received
      case Refused(refusal) =>
        assert ViewOk(Current(history));
        MarkQueryStale(snapshot, snapshot.header.scopePath);
        return null, Some(refusal);
      case ResetTo(scope) =>
        MarkQueryStale(snapshot, scope);
        return null, Some(Failure("reset_required", Some(scope)));
      case Done(first, staged) =>
        result, error := FinishBatch(snapshot, first, staged, Commit(snapshot.Contents(), first, staged));
    }

    // The since call on the current view, once the connection is open.
    method ReadCurrentSince(snapshot: QuerySnapshot, server: Server, n: nat)
      returns (result: QuerySnapshot?, error: Option<Error>, next: nat)
      requires Valid() && queryCurrent == snapshot
      modifies this
      ensures Valid()
      ensures var (outcome, after) := SinceOutcome(Current(old(history)), server, n);
              && history == Record(old(history), outcome, after).history
              && error == Record(old(history), outcome, after).error
              && next == after
      ensures result == if error.None? then queryCurrent else null
      ensures if history == old(history) then queryCurrent == snapshot else fresh(queryCurrent)
    {
      hide ViewOk, Collect, MarkStale, Finish, CapabilityError;
      ghost var v := Current(history);
      assert ViewOk(v);
      ScopeIsValid(v);
      if snapshot.header.revision < 1 { return null, Some(Failure("unsupported_capability", None)), n; }
      var rootStale := snapshot.Stale(snapshot.header.scopePath);
      if rootStale { return null, Some(Failure("stale_identity", None)), n; }
      error := CapabilityError(server(n));
      if error.Some? {
        MarkQueryStale(snapshot, snapshot.header.scopePath);
        return null, error, n + 1;
      }
      var received;
      received, next := CollectBatch(snapshot, server, n + 1);
      OutcomeIsOk(v, server, n, received);
      result, error := FinishSince(snapshot, received, Finish(v, received));
    }

    // ReadQuerySince
    method ReadQuerySince(snapshot: QuerySnapshot?, server: Server, n: nat)
      returns (result: QuerySnapshot?, error: Option<Error>, next: nat)
      requires Valid()
      modifies this
      ensures Valid()
      ensures var step := SinceStep(old(history), snapshot != null && snapshot == old(queryCurrent), server, n);
              history == step.history && error == step.error && next == step.next
      ensures result == if error.None? then queryCurrent else null
      ensures if history == old(history) then queryCurrent == old(queryCurrent) else fresh(queryCurrent)
      // copy-on-write: what any snapshot answered before the call, it still answers
      ensures forall s: QuerySnapshot | old(allocated(s)) && old(s.Valid()) ::
                s.Valid() && s.Contents() == old(s.Contents())
    {
      hide SinceOutcome, ViewOk;
      if server(n).NotOpened? { return null, Some(CallError), n + 1; }
      if snapshot == null || queryCurrent != snapshot { return null, Some(RequestError), n; }
      result, error, next := ReadCurrentSince(snapshot, server, n);
    }

    // The size of the current view, if there is one.
    method OldSize() returns (size: nat)
      requires Valid()
      ensures size == CurrentSize(history)
    {
      if queryCurrent == null { return 0; }
      assert ViewOk(Current(history));
      return queryCurrent.estimatedBytes;
    }

    // ReadQuerySnapshot
    method ReadQuerySnapshot(sel: Selection, server: Server, n: nat)
      returns (result: QuerySnapshot?, error: Option<Error>, next: nat)
      requires Valid()
      modifies this
      ensures Valid()
      ensures var step := RebuildStep(old(history), sel, server, n);
              history == step.history && error == step.error && next == step.next
      ensures result == if error.None? then queryCurrent else null
      ensures if error.Some? then queryCurrent == old(queryCurrent) else fresh(queryCurrent)
      // copy-on-write: what any snapshot answered before the call, it still answers
      ensures forall s: QuerySnapshot | old(allocated(s)) && old(s.Valid()) ::
                s.Valid() && s.Contents() == old(s.Contents())
    {
      hide Rebuild, ViewOk;
      if server(n).NotOpened? { return null, Some(CallError), n + 1; }
      var oldSize := OldSize();
      var draft;
      draft, error, next := BuildSnapshot(sel, oldSize, server, n);
      if draft == null { return null, error, next; }
      RebuildIsFresh(sel, oldSize, server, n);
      Publish(draft, Rebuild(sel, oldSize, server, n).0.value);
      return draft, None, next;
    }

    // One poll of SyncQuery on the current view, with the rebuild that may follow it.
    method PollOnce(view: QuerySnapshot, sel: Selection, server: Server, n: nat)
      returns (result: QuerySnapshot?, error: Option<Error>, next: nat, rebuilds: nat)
      requires Valid() && queryCurrent == view
      modifies this
      ensures Valid()
      ensures var (step, rebuilt) := Poll(old(history), sel, server, n);
              history == step.history && error == step.error && next == step.next && rebuilds == rebuilt
      ensures result == if error.None? then queryCurrent else null
    {
      rebuilds := 0;
      result, error, next := ReadQuerySince(view, server, n);
      if error.Some? && !IsReset(error) { return; }
      if error.Some? || result.staleCount != 0 {
        rebuilds := 1;
        result, error, next := ReadQuerySnapshot(sel, server, next);
      }
    }

    // SyncQuery: at every turn of the loop the view is the current one.
    method SyncQuery(sel: Selection, polls: int, interval: int, server: Server, n: nat)
      returns (result: QuerySnapshot?, error: Option<Error>, next: nat, rebuilds: nat)
      requires Valid()
      modifies this
      ensures Valid()
      ensures var r := SyncRun(old(history), sel, polls, interval, server, n);
              history == r.history && error == r.error && next == r.next && rebuilds == r.rebuilds
      ensures error.None? ==> result != null && result == queryCurrent && result.Contents().staleScopes == []
    {
      hide ViewOk, RebuildStep, Polls, Polling;
      SyncEndsFresh(history, sel, polls, interval, server, n);
      rebuilds := 0;
      if polls < 1 || interval < 0 { return null, Some(RequestError), n, 0; }
      result, error, next := ReadQuerySnapshot(sel, server, n);
      rebuilds := 1;
      if error.Some? { return; }
      ghost var all := Polls(history, sel, polls, server, next);
      PollingStart(history, sel, polls, server, next);
      result, error, next, rebuilds := PollMany(result, sel, polls, server, next, all);
      rebuilds := rebuilds + 1;
    }

    // The polling loop of SyncQuery: at every turn the view is the current one.
    method PollMany(view: QuerySnapshot, sel: Selection, polls: nat, server: Server, n: nat, ghost all: Synced)
      returns (result: QuerySnapshot?, error: Option<Error>, next: nat, rebuilds: nat)
      requires Valid() && queryCurrent == view
      requires Polling(all, history, sel, polls, server, n, 0)
      modifies this
      ensures Valid()
      ensures history == all.history && error == all.error && next == all.next && rebuilds == all.rebuilds
      ensures result == if error.None? then queryCurrent else null
    {
      hide Polling, Poll, ViewOk;
      result, error, next, rebuilds := view, None, n, 0;
      for index := 0 to polls
        invariant Valid() && result != null && result == queryCurrent && error == None
        invariant Polling(all, history, sel, polls - index, server, next, rebuilds)
      {
        PollingTurn(all, history, sel, polls - index, server, next, rebuilds);
        var rebuilt;
        result, error, next, rebuilt := PollOnce(result, sel, server, next);
        rebuilds := rebuilds + rebuilt;
        if error.Some? { return; }
      }
      PollingDone(all, history, sel, server, next, rebuilds);
    }
  }

  // What a since call on a view in order can come to is in order.
  lemma OutcomeIsOk(v: View, server: Server, n: nat, received: Received)
    requires ViewOk(v) && GuardError(v).None? && CapabilityError(server(n)).None?
    requires received == Collect(v, EMPTY_BATCH, server, n + 1).0
    ensures Finish(v, received) == SinceOutcome(v, server, n).0
    ensures Finish(v, received).Published? ==> ViewOk(Finish(v, received).view)
    ensures received.ResetTo? ==> ValidPath(received.scope)
  {
    if received.ResetTo? { CollectedScopeIsValid(v, EMPTY_BATCH, server, n + 1); }
    if Finish(v, received).Published? { PublishedIsOk(v, server, n, Finish(v, received).view); }
  }
}
