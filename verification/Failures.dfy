/** Exactly which since calls fail without touching the view, which mark it, and with what scope. */
module Failures {
  import opened Wrappers
  import opened Paths
  import opened Documents
  import opened Views
  import opened Delta
  import opened Paging
  import opened Runs

  predicate OwnReset(v: View, reset: QueryReset) {
    && reset.sessionID == v.header.sessionID && reset.queryID == v.header.queryID
    && reset.sinceRevision == v.header.revision
  }

  /** After some open pages of a legal batch, with their replays, the server answers with a valid
      reset that names this view's session, query and revision. */
  ghost predicate ResetsAt(
      v: View, server: Server, n: nat, pages: seq<QuerySince>, extra: seq<nat>, m: nat, reset: QueryReset)
  {
    && Underway(v, server, n, pages, extra, m)
    && server(m) == Answered(Reset(reset)) && ValidReset(reset) && OwnReset(v, reset)
  }

  lemma ResetIsTaken(
      v: View, server: Server, n: nat, pages: seq<QuerySince>, extra: seq<nat>, m: nat, reset: QueryReset)
    requires ResetsAt(v, server, n, pages, extra, m, reset)
    ensures Collect(v, EMPTY_BATCH, server, n) == (ResetTo(reset.resetScope), m + 1)
  {
    OpenPagesAreTaken(v, server, n, pages, extra, m, Collect(v, EMPTY_BATCH, server, n));
  }

  lemma StoppedByReset(v: View, pages: seq<QuerySince>, replays: nat, reply: Reply) returns (reset: QueryReset)
    requires LegalPages(v, pages) && Receive(v, StateAfter(v, pages, replays), reply).ResetTo?
    ensures reply == Answered(Reset(reset)) && ValidReset(reset) && OwnReset(v, reset)
    ensures Receive(v, StateAfter(v, pages, replays), reply) == ResetTo(reset.resetScope)
  {
    reset := reply.document.reset;
  }

  /** The since loop ends with a reset exactly when, after open pages of a legal batch, the server
      answers with one for this view; it is then that answer's scope that is reset. */
  lemma ResetsExactly(v: View, server: Server, n: nat)
    requires ValidPath(v.header.scopePath)
    ensures Collect(v, EMPTY_BATCH, server, n).0.ResetTo? <==>
            exists pages, extra, m, reset :: ResetsAt(v, server, n, pages, extra, m, reset)
    ensures forall pages, extra, m, reset | ResetsAt(v, server, n, pages, extra, m, reset) ::
              Collect(v, EMPTY_BATCH, server, n) == (ResetTo(reset.resetScope), m + 1)
  {
    if Collect(v, EMPTY_BATCH, server, n).0.ResetTo? {
      var pages, extra, m := LoopStops(v, server, n);
      LastExtraOk(extra);
      var reset := StoppedByReset(v, pages, LastExtra(extra), server(m));
      assert ResetsAt(v, server, n, pages, extra, m, reset);
    }
    forall pages, extra, m, reset | ResetsAt(v, server, n, pages, extra, m, reset)
      ensures Collect(v, EMPTY_BATCH, server, n) == (ResetTo(reset.resetScope), m + 1)
    {
      ResetIsTaken(v, server, n, pages, extra, m, reset);
    }
  }

  // --- the error of a loop that was not reset

  predicate AsksForReset(error: Error) {
    error.Failure? && error.code == "reset_required"
  }

  lemma DocumentErrorIsNoReset(reply: Reply, expected: Kind)
    ensures QueryDocument(reply, expected).Err? ==> !AsksForReset(QueryDocument(reply, expected).error)
  {
    assert "reset_required" !in QUERY_ERROR_CODES;
  }

  lemma {:induction false} RefusalIsNoReset(v: View, b: Batch, server: Server, n: nat)
    requires Collect(v, b, server, n).0.Refused?
    ensures !AsksForReset(Collect(v, b, server, n).0.error)
    decreases QUERY_DELTA_BATCH_BUDGET - b.size, 2 - b.replays
  {
    DocumentErrorIsNoReset(server(n), SinceKind);
    var received := Receive(v, b, server(n));
    if received.More? {
      assert ReceiveProgress(v, b, server(n));
      RefusalIsNoReset(v, received.batch, server, n + 1);
    }
  }

  // --- the whole call

  /** The server announces since calls, and resets this one to the scope. */
  ghost predicate ResetsTo(v: View, server: Server, n: nat, scope: string) {
    && server(n) == Answered(Capabilities(true))
    && exists pages, extra, m, reset ::
         ResetsAfter(v, server, n, pages, extra, m, reset) && reset.resetScope == scope
  }

  ghost predicate ResetsAfter(
      v: View, server: Server, n: nat, pages: seq<QuerySince>, extra: seq<nat>, m: nat, reset: QueryReset)
  {
    ResetsAt(v, server, n + 1, pages, extra, m, reset)
  }

  lemma CollectedReset(v: View, server: Server, n: nat, scope: string)
    requires ValidPath(v.header.scopePath) && server(n) == Answered(Capabilities(true))
    ensures ResetsTo(v, server, n, scope) <==> Collect(v, EMPTY_BATCH, server, n + 1).0 == ResetTo(scope)
  {
    ResetsExactly(v, server, n + 1);
    if Collect(v, EMPTY_BATCH, server, n + 1).0 == ResetTo(scope) {
      var pages, extra, m, reset :| ResetsAt(v, server, n + 1, pages, extra, m, reset);
      assert ResetsAfter(v, server, n, pages, extra, m, reset);
    }
    if ResetsTo(v, server, n, scope) {
      var pages, extra, m, reset :| ResetsAfter(v, server, n, pages, extra, m, reset) && reset.resetScope == scope;
      assert ResetsAt(v, server, n + 1, pages, extra, m, reset);
    }
  }

  /** The guards, which fail a call before it asks the server anything. */
  ghost predicate Guarded(v: View) {
    v.header.revision < 1 || IsStale(v, v.header.scopePath)
  }

  /** A view without a revision cannot be read since; one whose root is stale needs a rebuild. */
  function GuardCode(v: View): Error {
    Failure(if v.header.revision < 1 then "unsupported_capability" else "stale_identity", None)
  }

  lemma FinishMarks(v: View, received: Received)
    requires !received.More?
    ensures match Finish(v, received)
            case Rejected(_) => false
            case Marked(w, error) =>
              if received.ResetTo?
              then w == MarkStale(v, received.scope) && error == Failure("reset_required", Some(received.scope))
              else w == MarkStale(v, v.header.scopePath) && (AsksForReset(error) ==> received.Refused?)
            case _ => received.Done?
    ensures received.Refused? ==> Finish(v, received) == Marked(MarkStale(v, v.header.scopePath), received.error)
    ensures received.ResetTo? ==> Finish(v, received).Marked?
  {
  }

  /** A since call on a view fails without a mark exactly when a guard fails. Otherwise every failure
      marks: the scope of a reset if the server resets the call, and it then reports that reset, or
      else the root, and it then reports anything but a reset. */
  lemma OutcomeFailsExactly(v: View, server: Server, n: nat)
    requires ValidPath(v.header.scopePath)
    ensures var outcome := SinceOutcome(v, server, n).0;
            && (outcome.Rejected? <==> Guarded(v))
            && (Guarded(v) ==> outcome.error == GuardCode(v))
            && (!Guarded(v) ==> forall scope | ResetsTo(v, server, n, scope) ::
                  outcome == Marked(MarkStale(v, scope), Failure("reset_required", Some(scope))))
            && (outcome.Marked? && (forall scope :: !ResetsTo(v, server, n, scope)) ==>
                  outcome.view == MarkStale(v, v.header.scopePath) && !AsksForReset(outcome.error))
  {
    hide ResetsTo;
    if !Guarded(v) {
      if CapabilityError(server(n)).None? {
        var received := Collect(v, EMPTY_BATCH, server, n + 1).0;
        forall scope ensures ResetsTo(v, server, n, scope) <==> received == ResetTo(scope) {
          CollectedReset(v, server, n, scope);
        }
        FinishMarks(v, received);
        if received.Refused? { RefusalIsNoReset(v, EMPTY_BATCH, server, n + 1); }
        if received.ResetTo? { assert ResetsTo(v, server, n, received.scope); }
      } else {
        DocumentErrorIsNoReset(server(n), CapabilitiesKind);
        forall scope ensures !ResetsTo(v, server, n, scope) { NotAnnounced(v, server, n, scope); }
      }
    }
  }

  lemma NotAnnounced(v: View, server: Server, n: nat, scope: string)
    requires CapabilityError(server(n)).Some?
    ensures !ResetsTo(v, server, n, scope)
  {
  }

  /** The call fails before it asks the server anything about the view. */
  ghost predicate Untouched(h: History, onCurrent: bool, server: Server, n: nat) {
    server(n).NotOpened? || h == [] || !onCurrent || Guarded(Current(h))
  }

  ghost function UntouchedError(h: History, onCurrent: bool, server: Server, n: nat): Error {
    if server(n).NotOpened? then CallError
    else if h == [] || !onCurrent then RequestError
    else GuardCode(Current(h))
  }

  /** Failure is all-or-nothing. A since call that fails leaves the history as it is exactly when
      the connection could not be opened, the view is not current, or a guard fails. In every other
      failure it publishes the current view with one more stale scope and nothing else changed: the
      scope the server reset it to, or else the view's root. */
  lemma FailureIsAllOrNothing(h: History, onCurrent: bool, server: Server, n: nat)
    requires HistoryOk(h)
    ensures var step := SinceStep(h, onCurrent, server, n);
            && (Untouched(h, onCurrent, server, n) ==>
                  step.history == h && step.error == Some(UntouchedError(h, onCurrent, server, n)))
            && (step.error.Some? && !Untouched(h, onCurrent, server, n) ==>
                  exists scope :: Marks(h, step, server, n, scope))
            && (!Untouched(h, onCurrent, server, n) ==>
                  forall scope | ResetsTo(Current(h), server, n, scope) :: Marks(h, step, server, n, scope))
  {
    hide ViewOk, SinceOutcome, MarkStale, Guarded, GuardCode, ResetsTo;
    if !server(n).NotOpened? && h != [] && onCurrent {
      assert ViewOk(Current(h));
      ScopesAreValid(Current(h), server, n);
      OutcomeFailsExactly(Current(h), server, n);
    }
    if !Untouched(h, onCurrent, server, n) {
      var v := Current(h);
      assert ViewOk(v);
      ScopesAreValid(v, server, n);
      var step := SinceStep(h, onCurrent, server, n);
      if step.error.Some? {
        if scope :| ResetsTo(v, server, n, scope) {
          assert Marks(h, step, server, n, scope);
        } else {
          assert Marks(h, step, server, n, v.header.scopePath);
        }
      }
    }
  }

  lemma ScopesAreValid(v: View, server: Server, n: nat)
    requires ViewOk(v)
    ensures ValidPath(v.header.scopePath)
    ensures forall scope | ResetsTo(v, server, n, scope) :: ValidPath(scope)
  {
  }

  /** The step failed and marked this scope of the current view, for the reason stated. */
  ghost predicate Marks(h: History, step: Stepped, server: Server, n: nat, scope: string)
    requires h != []
  {
    var v := Current(h);
    && ValidPath(scope) && step.history == h + [MarkStale(v, scope)]
    && if ResetsTo(v, server, n, scope) then step.error == Some(Failure("reset_required", Some(scope)))
       else
         && scope == v.header.scopePath && (forall other :: !ResetsTo(v, server, n, other))
         && step.error.Some? && !AsksForReset(step.error.value)
  }
}
