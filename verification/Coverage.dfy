/** Over whole runs: exactly which published views know the flow generation of each of their
    nodes. */
module Coverage {
  import opened Documents
  import opened Views
  import opened Delta
  import opened Commits
  import opened CommitInvariants
  import opened Runs

  // Has a batch committed since the last rebuild removed anything, if so before this call?
  ghost predicate RemovedAfter(h: History, event: Event, server: Server, n: nat, removed: bool)
    requires HistoryOk(h)
  {
    match event
    case RebuildView(sel) => removed && RebuildStep(h, sel, server, n).error.Some?
    case ReadSince(onCurrent) => removed || RemovalPublished(h, onCurrent, server, n)
  }

  ghost predicate RemovalPublished(h: History, onCurrent: bool, server: Server, n: nat) {
    && !server(n).NotOpened? && h != [] && onCurrent
    && SinceOutcome(Current(h), server, n).0.Published?
    && Collect(Current(h), EMPTY_BATCH, server, n + 1).0.staged.removed != {}
  }

  ghost predicate RemovedInRun(h: History, events: seq<Event>, server: Server, n: nat, removed: bool)
    requires HistoryOk(h)
    decreases |events|
  {
    if events == [] then removed
    else
      StepIsOk(h, events[0], server, n);
      var step := Step(h, events[0], server, n);
      RemovedInRun(step.history, events[1..], server, step.next, RemovedAfter(h, events[0], server, n, removed))
  }

  // What a view knows, given whether anything was removed since it was rebuilt.
  ghost predicate Knows(v: View, removed: bool) {
    if FlowScope(v.header.scopePath) || !removed then Covered(v) else v.flowGenerations == map[]
  }

  ghost predicate CurrentKnows(h: History, removed: bool) {
    h != [] ==> Knows(Current(h), removed)
  }

  lemma KnowsExactly(v: View, removed: bool)
    requires ViewOk(v) && Knows(v, removed)
    ensures Covered(v) <==> FlowScope(v.header.scopePath) || !removed
  {
    hide ViewOk, Covered;
    if !FlowScope(v.header.scopePath) && removed { UncoveredRoot(v); }
  }

  lemma CommitKnows(v: View, first: QuerySince, s: Staged, w: View, removed: bool)
    requires ViewOk(v) && StagedOk(v, s) && ValidSince(first) && Commit(v, first, s) == New(w)
    requires Knows(v, removed)
    ensures Knows(w, removed || s.removed != {})
  {
    hide ViewOk, Covered, Commit, StagedOk, ValidSince;
    CommitKeepsInvariant(v, first, s);
    CommittedLists(v, first, s, w);
    if FlowScope(v.header.scopePath) || !removed {
      CoverageIsKeptExactly(v, first, s, w);
      if !FlowScope(v.header.scopePath) && s.removed != {} { DeepScopeLosesGenerations(v, first, s, w); }
    } else {
      assert forall flow :: flow !in w.flowGenerations;
    }
  }

  lemma PublishedKnows(h: History, server: Server, n: nat, w: View, removed: bool)
    requires HistoryOk(h) && h != [] && !server(n).NotOpened? && CurrentKnows(h, removed)
    requires SinceOutcome(Current(h), server, n).0 == Published(w)
    ensures Knows(w, removed || RemovalPublished(h, true, server, n))
  {
    hide ViewOk, Knows, SinceOutcome, Commit, StagedOk, ValidSince;
    var v := Current(h);
    assert ViewOk(v);
    var first, s := PublishedIsCommitted(v, server, n, w);
    CommitKnows(v, first, s, w, removed);
  }

  lemma MarkKnows(v: View, scope: string, removed: bool)
    requires Knows(v, removed)
    ensures Knows(MarkStale(v, scope), removed)
  {
  }

  lemma SinceStepKnows(h: History, onCurrent: bool, server: Server, n: nat, removed: bool)
    requires HistoryOk(h) && CurrentKnows(h, removed)
    ensures CurrentKnows(
              SinceStep(h, onCurrent, server, n).history, removed || RemovalPublished(h, onCurrent, server, n))
  {
    hide ViewOk, Knows, SinceOutcome;
    if !server(n).NotOpened? && h != [] && onCurrent {
      var v := Current(h);
      assert ViewOk(v);
      match SinceOutcome(v, server, n).0
      case Published(w) => PublishedKnows(h, server, n, w, removed);
      case Marked(w, error) =>
        var scope := MarkedScope(v, server, n, w, error);
        MarkKnows(v, scope, removed);
      case _ =>
    }
  }

  lemma StepKnows(h: History, event: Event, server: Server, n: nat, removed: bool)
    requires HistoryOk(h) && CurrentKnows(h, removed)
    ensures CurrentKnows(Step(h, event, server, n).history, RemovedAfter(h, event, server, n, removed))
  {
    hide ViewOk, RemovalPublished, SinceStep, RebuildStep;
    match event
    case RebuildView(sel) => RebuildStepIsOk(h, sel, server, n);
    case ReadSince(onCurrent) => SinceStepKnows(h, onCurrent, server, n, removed);
  }

  lemma {:induction false} RunKnows(h: History, events: seq<Event>, server: Server, n: nat, removed: bool)
    requires HistoryOk(h) && CurrentKnows(h, removed)
    ensures HistoryOk(Run(h, events, server, n).0)
    ensures CurrentKnows(Run(h, events, server, n).0, RemovedInRun(h, events, server, n, removed))
    decreases |events|
  {
    hide HistoryOk, CurrentKnows, RemovedAfter, Step;
    if events != [] {
      StepIsOk(h, events[0], server, n);
      StepKnows(h, events[0], server, n, removed);
      var step := Step(h, events[0], server, n);
      RunKnows(step.history, events[1..], server, step.next, RemovedAfter(h, events[0], server, n, removed));
    }
  }

  /** After any run of a new client, the current view knows the generation of each of its nodes
      exactly when its scope is "/" or a flow, or no batch committed since its last rebuild removed
      anything. Every published view is current after some prefix of the run. */
  lemma CurrentIsCoveredExactly(events: seq<Event>, server: Server, n: nat)
    ensures HistoryOk([])
    ensures var h := Run([], events, server, n).0;
            h != [] ==>
              (Covered(Current(h)) <==>
                 FlowScope(Current(h).header.scopePath) || !RemovedInRun([], events, server, n, false))
  {
    hide ViewOk, Knows;
    RunKnows([], events, server, n, false);
    var h := Run([], events, server, n).0;
    if h != [] {
      assert ViewOk(Current(h));
      KnowsExactly(Current(h), RemovedInRun([], events, server, n, false));
    }
  }
}
