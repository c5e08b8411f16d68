/** The client's published views over whole runs of calls against an arbitrary server.
    A history lists every view ever published; the last one is the current view, and the position
    of a view in the history is its identity. Every call holds the client's lock, so any
    interleaving of callers is a sequence of these steps. */
module Runs {
  import opened Wrappers
  import opened Paths
  import opened Slices
  import opened Documents
  import opened Views
  import opened Delta
  import opened Batches
  import opened Paging
  import opened Commits
  import opened CommitInvariants
  import opened Assembly
  import opened AssemblyProperties

  type History = seq<View>

  datatype Stepped = Stepped(history: History, error: Option<Error>, next: nat)

  ghost predicate HistoryOk(h: History) {
    forall i | 0 <= i < |h| :: ViewOk(h[i])
  }

  function Current(h: History): View
    requires h != []
  {
    h[|h| - 1]
  }

  ghost function CurrentSize(h: History): (size: nat)
    requires HistoryOk(h)
  {
    if h == [] then 0 else assert ViewOk(Current(h)); Current(h).estimatedBytes
  }

  // ReadQuerySnapshot
  ghost function RebuildStep(h: History, sel: Selection, server: Server, n: nat): Stepped
    requires HistoryOk(h)
  {
    if server(n).NotOpened? then Stepped(h, Some(CallError), n + 1)
    else
      var (built, next) := Rebuild(sel, CurrentSize(h), server, n);
      match built
      case Ok(view) => Stepped(h + [view], None, next)
      case Err(error) => Stepped(h, Some(error), next)
  }

  // What an outcome does to the history.
  function Record(h: History, outcome: Outcome, next: nat): Stepped {
    match outcome
    case Rejected(error) => Stepped(h, Some(error), next)
    case Unchanged => Stepped(h, None, next)
    case Published(view) => Stepped(h + [view], None, next)
    case Marked(view, error) => Stepped(h + [view], Some(error), next)
  }

  // ReadQuerySince on the current view, or on any other
  ghost function SinceStep(h: History, onCurrent: bool, server: Server, n: nat): Stepped {
    if server(n).NotOpened? then Stepped(h, Some(CallError), n + 1)
    else if h == [] || !onCurrent then Stepped(h, Some(RequestError), n)
    else
      var (outcome, next) := SinceOutcome(Current(h), server, n);
      Record(h, outcome, next)
  }

  // --- one since call

  /** A batch the loop accepted, as the commit sees it. */
  lemma CollectedIsStagedOk(v: View, server: Server, n: nat, first: QuerySince, s: Staged)
    requires ViewOk(v) && Collect(v, EMPTY_BATCH, server, n).0 == Received.Done(first, s)
    ensures ValidSince(first) && OwnIdentity(v, first) && StagedOk(v, s)
  {
    var pages, extra := AcceptedBatchIsLegal(v, server, n);
    StagingIsExact(v, Ops(pages));
    AcceptedIsStagedOk(v, Ops(pages), s);
    assert ValidSince(pages[0]) && OwnIdentity(v, pages[0]);
  }

  lemma PublishedWasCollected(v: View, server: Server, n: nat, w: View) returns (first: QuerySince, s: Staged)
    requires SinceOutcome(v, server, n).0 == Published(w)
    ensures Collect(v, EMPTY_BATCH, server, n + 1).0 == Received.Done(first, s)
    ensures Commit(v, first, s).New? && Commit(v, first, s).view == w
  {
    var received := Collect(v, EMPTY_BATCH, server, n + 1).0;
    first, s := received.first, received.staged;
  }

  /** Whatever is published by a since call comes from a legal batch, committed. */
  lemma PublishedIsCommitted(v: View, server: Server, n: nat, w: View) returns (first: QuerySince, s: Staged)
    requires ViewOk(v) && SinceOutcome(v, server, n).0 == Published(w)
    ensures Collect(v, EMPTY_BATCH, server, n + 1).0 == Received.Done(first, s)
    ensures ValidSince(first) && OwnIdentity(v, first) && StagedOk(v, s)
    ensures Commit(v, first, s) == New(w)
  {
    first, s := PublishedWasCollected(v, server, n, w);
    CollectedIsStagedOk(v, server, n + 1, first, s);
  }

  lemma CollectedScopeIsValid(v: View, b: Batch, server: Server, n: nat)
    requires Collect(v, b, server, n).0.ResetTo?
    ensures ValidPath(Collect(v, b, server, n).0.scope)
    decreases QUERY_DELTA_BATCH_BUDGET - b.size, 2 - b.replays
  {
    var received := Receive(v, b, server(n));
    if received.More? {
      assert ReceiveProgress(v, b, server(n));
      CollectedScopeIsValid(v, received.batch, server, n + 1);
    }
  }

  /** A since call that marks the view marks exactly one scope: the one a matching reset named,
      or the root. */
  lemma MarkedScope(v: View, server: Server, n: nat, w: View, error: Error) returns (scope: string)
    requires ViewOk(v) && SinceOutcome(v, server, n).0 == Marked(w, error)
    ensures ValidPath(scope) && w == MarkStale(v, scope)
    ensures error == Failure("reset_required", Some(scope)) || scope == v.header.scopePath
  {
    scope := v.header.scopePath;
    var collected := Collect(v, EMPTY_BATCH, server, n + 1).0;
    if w != MarkStale(v, scope) {
      assert collected.ResetTo?;
      CollectedScopeIsValid(v, EMPTY_BATCH, server, n + 1);
      scope := collected.scope;
    }
  }

  // --- every step

  lemma HistorySnoc(h: History, v: View)
    requires HistoryOk(h) && ViewOk(v)
    ensures HistoryOk(h + [v]) && h <= h + [v]
  {
  }

  lemma PublishedIsOk(v: View, server: Server, n: nat, w: View)
    requires ViewOk(v) && SinceOutcome(v, server, n).0 == Published(w)
    ensures ViewOk(w)
  {
    var first, s := PublishedIsCommitted(v, server, n, w);
    CommitKeepsInvariant(v, first, s);
  }

  lemma MarkedIsOk(v: View, server: Server, n: nat, w: View, error: Error)
    requires ViewOk(v) && SinceOutcome(v, server, n).0 == Marked(w, error)
    ensures ViewOk(w)
  {
    var scope := MarkedScope(v, server, n, w, error);
    MarkAddsOneScope(v, scope);
  }

  lemma SinceStepIsOk(h: History, onCurrent: bool, server: Server, n: nat)
    requires HistoryOk(h)
    ensures HistoryOk(SinceStep(h, onCurrent, server, n).history)
    ensures h <= SinceStep(h, onCurrent, server, n).history
  {
    hide ViewOk, SinceOutcome;
    if h != [] {
      var v := Current(h);
      assert ViewOk(v);
      match SinceOutcome(v, server, n).0
      case Published(w) =>
        PublishedIsOk(v, server, n, w);
        HistorySnoc(h, w);
      case Marked(w, error) =>
        MarkedIsOk(v, server, n, w, error);
        HistorySnoc(h, w);
      case _ =>
    }
  }

  lemma RebuildStepIsOk(h: History, sel: Selection, server: Server, n: nat)
    requires HistoryOk(h)
    ensures var step := RebuildStep(h, sel, server, n);
            && HistoryOk(step.history) && h <= step.history
            && (step.error.Some? ==> step.history == h)
            && (step.error.None? ==> |step.history| == |h| + 1 && step.history[..|h|] == h
                                     && FreshView(Current(step.history), sel, CurrentSize(h)))
  {
    RebuildIsFresh(sel, CurrentSize(h), server, n);
    var built := Rebuild(sel, CurrentSize(h), server, n).0;
    if built.Ok? { HistorySnoc(h, built.value); }
  }

  // --- whole runs

  datatype Event = RebuildView(sel: Selection) | ReadSince(onCurrent: bool)

  ghost function Step(h: History, event: Event, server: Server, n: nat): Stepped
    requires HistoryOk(h)
  {
    match event
    case RebuildView(sel) => RebuildStep(h, sel, server, n)
    case ReadSince(onCurrent) => SinceStep(h, onCurrent, server, n)
  }

  lemma StepIsOk(h: History, event: Event, server: Server, n: nat)
    requires HistoryOk(h)
    ensures HistoryOk(Step(h, event, server, n).history)
    ensures h <= Step(h, event, server, n).history
  {
    match event
    case RebuildView(sel) => RebuildStepIsOk(h, sel, server, n);
    case ReadSince(onCurrent) => SinceStepIsOk(h, onCurrent, server, n);
  }

  ghost function Run(h: History, events: seq<Event>, server: Server, n: nat): (History, nat)
    requires HistoryOk(h)
    decreases |events|
  {
    if events == [] then (h, n)
    else
      StepIsOk(h, events[0], server, n);
      var step := Step(h, events[0], server, n);
      Run(step.history, events[1..], server, step.next)
  }

  /** In every run of calls against every server, every published view keeps the view invariant,
      and no call changes a view that was published before it. */
  lemma {:induction false} RunKeepsEveryView(h: History, events: seq<Event>, server: Server, n: nat)
    requires HistoryOk(h)
    ensures HistoryOk(Run(h, events, server, n).0)
    ensures h <= Run(h, events, server, n).0
    decreases |events|
  {
    if events != [] {
      StepIsOk(h, events[0], server, n);
      var step := Step(h, events[0], server, n);
      RunKeepsEveryView(step.history, events[1..], server, step.next);
    }
  }

  ghost predicate OnlySince(events: seq<Event>) {
    forall i | 0 <= i < |events| :: events[i].ReadSince?
  }

  /** A view whose root is stale is absorbing: no since call, on any view, publishes anything. */
  lemma {:induction false} RootStaleIsAbsorbing(h: History, events: seq<Event>, server: Server, n: nat)
    requires HistoryOk(h) && h != [] && IsStale(Current(h), Current(h).header.scopePath)
    requires OnlySince(events)
    ensures Run(h, events, server, n).0 == h
    decreases |events|
  {
    if events != [] {
      StepIsOk(h, events[0], server, n);
      RootStaleIsAbsorbing(h, events[1..], server, Step(h, events[0], server, n).next);
    }
  }

  // --- staleness over runs

  lemma CommitIsSticky(v: View, first: QuerySince, s: Staged, w: View, path: string)
    requires ViewOk(v) && StagedOk(v, s) && Commit(v, first, s) == New(w)
    ensures path in w.nodes ==> path in v.nodes && (IsStale(v, path) ==> IsStale(w, path))
  {
    if path in w.nodes {
      CommittedSurvives(v, first, s, w, path);
      StalenessIsExact(v, first, s, w, path);
    }
  }

  lemma CommittedSurvives(v: View, first: QuerySince, s: Staged, w: View, path: string)
    requires ViewOk(v) && StagedOk(v, s) && Commit(v, first, s) == New(w) && path in w.nodes
    ensures path in v.nodes && !Gone(s.removed, path) && ValidPath(path)
  {
    CommitRefinesMap(v, first, s);
    assert path in Table(w);
    assert path in Table(v);
    assert path in v.nodes;
  }

  // What a since call makes current keeps the staleness of the nodes it keeps.
  ghost predicate KeepsStale(v: View, w: View, path: string) {
    path in w.nodes ==> path in v.nodes && (IsStale(v, path) ==> IsStale(w, path))
  }

  lemma PublishedKeepsStale(v: View, server: Server, n: nat, w: View, path: string)
    requires ViewOk(v) && SinceOutcome(v, server, n).0 == Published(w)
    ensures KeepsStale(v, w, path)
  {
    var first, s := PublishedIsCommitted(v, server, n, w);
    CommitIsSticky(v, first, s, w, path);
  }

  lemma MarkedKeepsStale(v: View, server: Server, n: nat, w: View, error: Error, path: string)
    requires ViewOk(v) && SinceOutcome(v, server, n).0 == Marked(w, error)
    ensures KeepsStale(v, w, path)
  {
    var scope := MarkedScope(v, server, n, w, error);
    MarkAddsOneScope(v, scope);
  }

  lemma SinceStepIsSticky(h: History, onCurrent: bool, server: Server, n: nat, path: string)
    requires HistoryOk(h) && h != []
    ensures var g := SinceStep(h, onCurrent, server, n).history;
            g != [] && KeepsStale(Current(h), Current(g), path)
  {
    var v := Current(h);
    assert ViewOk(v);
    match SinceOutcome(v, server, n).0
    case Published(w) => PublishedKeepsStale(v, server, n, w, path);
    case Marked(w, error) => MarkedKeepsStale(v, server, n, w, error, path);
    case _ =>
  }

  /** Between rebuilds a surviving path never goes from stale to fresh. */
  lemma {:induction false} StalenessIsSticky(h: History, events: seq<Event>, server: Server, n: nat, path: string)
    requires HistoryOk(h) && h != [] && OnlySince(events)
    ensures var g := Run(h, events, server, n).0;
            g != [] && KeepsStale(Current(h), Current(g), path)
    decreases |events|
  {
    if events != [] {
      StepIsOk(h, events[0], server, n);
      SinceStepIsSticky(h, events[0].onCurrent, server, n, path);
      var step := Step(h, events[0], server, n);
      StalenessIsSticky(step.history, events[1..], server, step.next, path);
    }
  }

  // --- flow generations over runs

  ghost predicate FlowsKnown(v: View) {
    FlowScope(v.header.scopePath) ==> Covered(v)
  }

  ghost predicate AllFlowsKnown(h: History) {
    forall i | 0 <= i < |h| :: FlowsKnown(h[i])
  }

  lemma PublishedKnowsFlows(v: View, server: Server, n: nat, w: View)
    requires ViewOk(v) && FlowsKnown(v) && SinceOutcome(v, server, n).0 == Published(w)
    ensures FlowsKnown(w)
  {
    var first, s := PublishedIsCommitted(v, server, n, w);
    CommitKeepsInvariant(v, first, s);
    CommittedLists(v, first, s, w);
    if FlowScope(v.header.scopePath) { CoverageIsKept(v, first, s, w); }
  }

  lemma MarkKnowsFlows(v: View, scope: string)
    requires FlowsKnown(v)
    ensures FlowsKnown(MarkStale(v, scope))
  {
  }

  lemma FlowsSnoc(h: History, v: View)
    requires AllFlowsKnown(h) && FlowsKnown(v)
    ensures AllFlowsKnown(h + [v])
  {
  }

  lemma SinceStepKnowsFlows(h: History, onCurrent: bool, server: Server, n: nat)
    requires HistoryOk(h) && AllFlowsKnown(h)
    ensures AllFlowsKnown(SinceStep(h, onCurrent, server, n).history)
  {
    hide ViewOk, FlowsKnown, SinceOutcome;
    if h != [] {
      var v := Current(h);
      assert ViewOk(v) && FlowsKnown(v);
      match SinceOutcome(v, server, n).0
      case Published(w) =>
        PublishedKnowsFlows(v, server, n, w);
        FlowsSnoc(h, w);
      case Marked(w, error) =>
        var scope := MarkedScope(v, server, n, w, error);
        MarkKnowsFlows(v, scope);
        FlowsSnoc(h, w);
      case _ =>
    }
  }

  lemma RebuildKnowsFlows(h: History, sel: Selection, server: Server, n: nat)
    requires HistoryOk(h) && AllFlowsKnown(h)
    ensures AllFlowsKnown(RebuildStep(h, sel, server, n).history)
  {
    RebuildIsFresh(sel, CurrentSize(h), server, n);
    var built := Rebuild(sel, CurrentSize(h), server, n).0;
    if built.Ok? { FlowsSnoc(h, built.value); }
  }

  lemma StepKnowsFlows(h: History, event: Event, server: Server, n: nat)
    requires HistoryOk(h) && AllFlowsKnown(h)
    ensures AllFlowsKnown(Step(h, event, server, n).history)
  {
    match event
    case RebuildView(sel) => RebuildKnowsFlows(h, sel, server, n);
    case ReadSince(onCurrent) => SinceStepKnowsFlows(h, onCurrent, server, n);
  }

  /** In every run, every published view scoped at "/" or at a flow knows the generation of the
      flow of each of its nodes. */
  lemma {:induction false} RunKnowsFlows(h: History, events: seq<Event>, server: Server, n: nat)
    requires HistoryOk(h) && AllFlowsKnown(h)
    ensures AllFlowsKnown(Run(h, events, server, n).0)
    decreases |events|
  {
    if events != [] {
      StepIsOk(h, events[0], server, n);
      StepKnowsFlows(h, events[0], server, n);
      var step := Step(h, events[0], server, n);
      RunKnowsFlows(step.history, events[1..], server, step.next);
    }
  }

  ghost predicate KeepsGenerations(v: View, w: View) {
    forall flow | flow in w.flowGenerations ::
      flow in v.flowGenerations && w.flowGenerations[flow] == v.flowGenerations[flow]
  }

  lemma OutcomeKeepsGenerations(v: View, server: Server, n: nat)
    requires ViewOk(v)
    ensures match SinceOutcome(v, server, n).0
            case Published(w) => KeepsGenerations(v, w)
            case Marked(w, _) => KeepsGenerations(v, w)
            case _ => true
  {
    match SinceOutcome(v, server, n).0
    case Published(w) =>
      var first, s := PublishedIsCommitted(v, server, n, w);
      CommittedLists(v, first, s, w);
    case Marked(w, error) =>
      var scope := MarkedScope(v, server, n, w, error);
    case _ =>
  }

  /** Between rebuilds the generation of a flow never changes and no flow is added. */
  lemma {:induction false} GenerationsAreFixed(h: History, events: seq<Event>, server: Server, n: nat)
    requires HistoryOk(h) && h != [] && OnlySince(events)
    ensures var g := Run(h, events, server, n).0; g != [] && KeepsGenerations(Current(h), Current(g))
    decreases |events|
  {
    if events != [] {
      StepIsOk(h, events[0], server, n);
      assert ViewOk(Current(h));
      OutcomeKeepsGenerations(Current(h), server, n);
      var step := Step(h, events[0], server, n);
      GenerationsAreFixed(step.history, events[1..], server, step.next);
    }
  }

  // --- requests over runs

  lemma SinceStepIsBounded(h: History, onCurrent: bool, server: Server, n: nat)
    ensures n <= SinceStep(h, onCurrent, server, n).next <= n + 24576
  {
    hide Collect, Finish, MarkStale;
    if h != [] { SinceRequestsAreBounded(Current(h), server, n + 1); }
  }

  // A rebuild takes one answer for every 512 bytes of the view budget, a since call one for the
  // capabilities and fewer than 24576 since answers.
  function AnswersPerCall(): nat {
    QUERY_CLIENT_VIEW_BUDGET / 512
  }

  lemma StepIsBounded(h: History, event: Event, server: Server, n: nat)
    requires HistoryOk(h)
    ensures n <= Step(h, event, server, n).next <= n + AnswersPerCall()
  {
    hide FreshResult;
    match event
    case RebuildView(sel) => RebuildIsFresh(sel, CurrentSize(h), server, n);
    case ReadSince(onCurrent) => SinceStepIsBounded(h, onCurrent, server, n);
  }

  /** Every run ends, whatever the server answers, and uses a bounded number of answers per call. */
  lemma {:induction false} RunIsBounded(h: History, events: seq<Event>, server: Server, n: nat)
    requires HistoryOk(h)
    ensures n <= Run(h, events, server, n).1 <= n + |events| * AnswersPerCall()
    decreases |events|
  {
    hide HistoryOk, Step;
    if events != [] {
      StepIsOk(h, events[0], server, n);
      StepIsBounded(h, events[0], server, n);
      var step := Step(h, events[0], server, n);
      RunIsBounded(step.history, events[1..], server, step.next);
      assert |events| * AnswersPerCall() == AnswersPerCall() + (|events| - 1) * AnswersPerCall();
    }
  }
}
