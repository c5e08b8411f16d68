/** In every run, each published view and the view it replaces fit the memory budget together. */
module Memory {
  import opened Documents
  import opened Views
  import opened Delta
  import opened CommitInvariants
  import opened Assembly
  import opened AssemblyProperties
  import opened Runs

  /** Two views that share their base count it once; others do not share anything. */
  ghost predicate FitTogether(v: View, w: View) {
    || (w.nodes == v.nodes
        && 1024 + MapSize(v.nodes) + MapSize(v.overrides) + MapSize(w.overrides) <= QUERY_CLIENT_VIEW_BUDGET)
    || v.estimatedBytes + w.estimatedBytes <= QUERY_CLIENT_VIEW_BUDGET
  }

  ghost predicate AllFitTogether(h: History) {
    forall i | 0 < i < |h| :: FitTogether(h[i - 1], h[i])
  }

  lemma FitSnoc(h: History, w: View)
    requires AllFitTogether(h) && (h != [] ==> FitTogether(Current(h), w))
    ensures AllFitTogether(h + [w])
  {
  }

  lemma PublishedFits(v: View, server: Server, n: nat, w: View)
    requires ViewOk(v) && SinceOutcome(v, server, n).0 == Published(w)
    ensures FitTogether(v, w)
  {
    hide ViewOk, SinceOutcome, Commit;
    var first, s := PublishedIsCommitted(v, server, n, w);
    CommitStaysInBudget(v, first, s, w);
    BaseIsCounted(v);
  }

  lemma BaseIsCounted(v: View)
    requires ViewOk(v)
    ensures v.baseBytes == 1024 + MapSize(v.nodes)
    ensures 1024 + MapSize(v.nodes) + 2 * MapSize(v.overrides) <= QUERY_CLIENT_VIEW_BUDGET
  {
  }

  lemma MarkFits(v: View, scope: string)
    requires ViewOk(v)
    ensures FitTogether(v, MarkStale(v, scope))
  {
    BaseIsCounted(v);
  }

  lemma SinceStepFits(h: History, onCurrent: bool, server: Server, n: nat)
    requires HistoryOk(h) && AllFitTogether(h)
    ensures AllFitTogether(SinceStep(h, onCurrent, server, n).history)
  {
    hide FitTogether, SinceOutcome, ViewOk;
    if h != [] {
      var v := Current(h);
      assert ViewOk(v);
      match SinceOutcome(v, server, n).0
      case Published(w) =>
        PublishedFits(v, server, n, w);
        FitSnoc(h, w);
      case Marked(w, error) =>
        var scope := MarkedScope(v, server, n, w, error);
        MarkFits(v, scope);
        FitSnoc(h, w);
      case _ =>
    }
  }

  lemma RebuildStepFits(h: History, sel: Selection, server: Server, n: nat)
    requires HistoryOk(h) && AllFitTogether(h)
    ensures AllFitTogether(RebuildStep(h, sel, server, n).history)
  {
    RebuildIsFresh(sel, CurrentSize(h), server, n);
    var built := Rebuild(sel, CurrentSize(h), server, n).0;
    if built.Ok? { FitSnoc(h, built.value); }
  }

  lemma StepFits(h: History, event: Event, server: Server, n: nat)
    requires HistoryOk(h) && AllFitTogether(h)
    ensures AllFitTogether(Step(h, event, server, n).history)
  {
    match event
    case RebuildView(sel) => RebuildStepFits(h, sel, server, n);
    case ReadSince(onCurrent) => SinceStepFits(h, onCurrent, server, n);
  }

  /** Whatever the calls and whatever the server: no publication needs more than the budget for the
      view it makes and the view it replaces. */
  lemma {:induction false} RunFitsTheBudget(h: History, events: seq<Event>, server: Server, n: nat)
    requires HistoryOk(h) && AllFitTogether(h)
    ensures AllFitTogether(Run(h, events, server, n).0)
    decreases |events|
  {
    hide AllFitTogether;
    if events != [] {
      StepIsOk(h, events[0], server, n);
      StepFits(h, events[0], server, n);
      var step := Step(h, events[0], server, n);
      RunFitsTheBudget(step.history, events[1..], server, step.next);
    }
  }
}
