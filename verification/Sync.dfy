/** SyncQuery by a single caller: a rebuild, then a fixed number of polls, with a rebuild after
    every reset and every batch that leaves something stale. */
module Sync {
  import opened Wrappers
  import opened Documents
  import opened Delta
  import opened Assembly
  import opened Runs

  // The history a poll began with, and the number of its first answer.
  datatype Head = Head(history: History, next: nat)

  datatype Synced = Synced(history: History, error: Option<Error>, next: nat, rebuilds: nat, heads: seq<Head>)

  predicate IsReset(error: Option<Error>) {
    error.Some? && error.value.Failure? && error.value.code == "reset_required"
  }

  // After a poll that ended with this history: is the view to be rebuilt?
  predicate NeedsRebuild(h: History, error: Option<Error>) {
    error.Some? || (h != [] && Current(h).staleScopes != [])
  }

  // One poll: the history, how it ended, the next answer, and whether it rebuilt.
  ghost function Poll(h: History, sel: Selection, server: Server, n: nat): (Stepped, nat)
    requires HistoryOk(h)
  {
    var step := SinceStep(h, true, server, n);
    SinceStepIsOk(h, true, server, n);
    if step.error.Some? && !IsReset(step.error) then (step, 0)
    else if NeedsRebuild(step.history, step.error) then (RebuildStep(step.history, sel, server, step.next), 1)
    else (step, 0)
  }

  ghost predicate Pollable(h: History) {
    h != [] && HistoryOk(h) && Current(h).staleScopes == []
  }

  lemma PollIsOk(h: History, sel: Selection, server: Server, n: nat)
    requires HistoryOk(h) && h != []
    ensures var step := Poll(h, sel, server, n).0;
            && HistoryOk(step.history) && h <= step.history
            && (step.error.None? ==> Pollable(step.history))
  {
    var step := SinceStep(h, true, server, n);
    SinceStepIsOk(h, true, server, n);
    RebuildStepIsOk(step.history, sel, server, step.next);
  }

  ghost function Polls(h: History, sel: Selection, left: nat, server: Server, n: nat): Synced
    requires HistoryOk(h) && h != []
    decreases left
  {
    if left == 0 then Synced(h, None, n, 0, [])
    else
      var (step, rebuilt) := Poll(h, sel, server, n);
      PollIsOk(h, sel, server, n);
      if step.error.Some? then Synced(step.history, step.error, step.next, rebuilt, [Head(h, n)])
      else
        var rest := Polls(step.history, sel, left - 1, server, step.next);
        rest.(rebuilds := rebuilt + rest.rebuilds, heads := [Head(h, n)] + rest.heads)
  }

  // The whole of a sync ends as the rest of it does, apart from the rebuilds already counted.
  ghost predicate SameEnd(all: Synced, rest: Synced, counted: int) {
    && all.history == rest.history && all.error == rest.error && all.next == rest.next
    && all.rebuilds == counted + rest.rebuilds
  }

  // With this much left to poll, a sync that ends as `all` does has come to this history.
  ghost predicate Polling(all: Synced, h: History, sel: Selection, left: nat, server: Server, n: nat, counted: int) {
    HistoryOk(h) && h != [] && SameEnd(all, Polls(h, sel, left, server, n), counted)
  }

  lemma PollingStart(h: History, sel: Selection, left: nat, server: Server, n: nat)
    requires HistoryOk(h) && h != []
    ensures Polling(Polls(h, sel, left, server, n), h, sel, left, server, n, 0)
  {
  }

  lemma PollingTurn(all: Synced, h: History, sel: Selection, left: nat, server: Server, n: nat, counted: int)
    requires HistoryOk(h) && Polling(all, h, sel, left, server, n, counted) && left > 0
    ensures var (step, rebuilt) := Poll(h, sel, server, n);
            if step.error.Some?
            then SameEnd(all, Synced(step.history, step.error, step.next, rebuilt, []), counted)
            else Polling(all, step.history, sel, left - 1, server, step.next, counted + rebuilt)
  {
    PollIsOk(h, sel, server, n);
  }

  lemma PollingDone(all: Synced, h: History, sel: Selection, server: Server, n: nat, counted: int)
    requires Polling(all, h, sel, 0, server, n, counted)
    ensures all.history == h && all.error == None && all.next == n && all.rebuilds == counted
  {
  }

  ghost function SyncRun(h: History, sel: Selection, polls: int, interval: int, server: Server, n: nat): Synced
    requires HistoryOk(h)
  {
    if polls < 1 || interval < 0 then Synced(h, Some(RequestError), n, 0, [])
    else
      var step := RebuildStep(h, sel, server, n);
      RebuildStepIsOk(h, sel, server, n);
      if step.error.Some? then Synced(step.history, step.error, step.next, 1, [])
      else
        var rest := Polls(step.history, sel, polls, server, step.next);
        rest.(rebuilds := 1 + rest.rebuilds)
  }

  /** A current view without stale scopes passes every guard of a since call but the one on its
      revision. */
  lemma PollableIsNotRejected(h: History, server: Server, n: nat)
    requires Pollable(h)
    ensures SinceOutcome(Current(h), server, n).0.Rejected? <==> Current(h).header.revision < 1
  {
  }

  ghost predicate EndsFresh(h: History, left: nat, r: Synced) {
    && HistoryOk(r.history) && h <= r.history
    && (r.error.None? ==> r.history != [] && Current(r.history).staleScopes == [])
    && r.rebuilds <= left
    && |r.heads| <= left && (r.error.None? ==> |r.heads| == left)
    && forall i | 0 <= i < |r.heads| :: Pollable(r.heads[i].history)
  }

  lemma EndsFreshCons(h: History, n: nat, g: History, left: nat, rest: Synced, rebuilt: nat)
    requires Pollable(h) && h <= g && EndsFresh(g, left, rest) && rebuilt <= 1
    ensures EndsFresh(h, left + 1, rest.(rebuilds := rebuilt + rest.rebuilds, heads := [Head(h, n)] + rest.heads))
  {
  }

  ghost predicate PollsFresh(h: History, sel: Selection, left: nat, server: Server, n: nat) {
    Pollable(h) ==> EndsFresh(h, left, Polls(h, sel, left, server, n))
  }

  // The polls from here on end fresh if those after the next one do.
  lemma PollsUnfold(h: History, sel: Selection, left: nat, server: Server, n: nat) returns (g: History, m: nat)
    ensures left == 0 ==> PollsFresh(h, sel, left, server, n)
    ensures left > 0 && PollsFresh(g, sel, left - 1, server, m) ==> PollsFresh(h, sel, left, server, n)
  {
    g, m := h, n;
    if left > 0 && Pollable(h) {
      var (step, rebuilt) := Poll(h, sel, server, n);
      PollIsOk(h, sel, server, n);
      g, m := step.history, step.next;
      if step.error.None? {
        var rest := Polls(g, sel, left - 1, server, m);
        if EndsFresh(g, left - 1, rest) { EndsFreshCons(h, n, g, left - 1, rest, rebuilt); }
      }
    }
  }

  lemma {:induction false} PollsEndFresh(h: History, sel: Selection, left: nat, server: Server, n: nat)
    ensures PollsFresh(h, sel, left, server, n)
    decreases left
  {
    hide PollsFresh;
    var g, m := PollsUnfold(h, sel, left, server, n);
    if left > 0 { PollsEndFresh(g, sel, left - 1, server, m); }
  }

  /** At the head of every poll the view is the current one and has no stale scope, so the poll
      passes the guards of a since call; a sync that succeeds ends with a current view that has no
      stale scope; and it rebuilds at most once more than it polls. */
  lemma SyncEndsFresh(h: History, sel: Selection, polls: int, interval: int, server: Server, n: nat)
    requires HistoryOk(h)
    ensures var r := SyncRun(h, sel, polls, interval, server, n);
            && HistoryOk(r.history) && h <= r.history
            && (r.error.None? ==>
                  && polls >= 1 && |r.heads| == polls
                  && |r.history| > |h| && Current(r.history).staleScopes == [])
            && (polls >= 1 ==> r.rebuilds <= polls + 1)
            && (polls < 1 || interval < 0 ==> r.error == Some(RequestError) && r.history == h)
            && forall i | 0 <= i < |r.heads| :: Pollable(r.heads[i].history)
  {
    if polls >= 1 && interval >= 0 {
      var step := RebuildStep(h, sel, server, n);
      RebuildStepIsOk(h, sel, server, n);
      if step.error.None? { PollsEndFresh(step.history, sel, polls, server, step.next); }
    }
  }
}
