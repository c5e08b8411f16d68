/** What a sync does, poll by poll, said of the since calls and rebuilds alone. */
module SyncSteps {
  import opened Wrappers
  import opened Documents
  import opened Assembly
  import opened Runs
  import opened Sync

  /** A since call that asks for a rebuild: it was reset, or it succeeded and left a stale scope. */
  ghost predicate AsksForRebuild(from: Head, server: Server) {
    var step := SinceStep(from.history, true, server, from.next);
    match step.error
    case Some(Failure(code, _)) => code == "reset_required"
    case Some(_) => false
    case None => step.history != [] && Current(step.history).staleScopes != []
  }

  /** One poll leads from here to there, and ends with this error, if any. A call that asks for a
      rebuild is followed by one, whose end is the end of the poll; any other call is the poll. */
  ghost predicate PollLeads(sel: Selection, server: Server, from: Head, error: Option<Error>, to: Head) {
    HistoryOk(from.history) &&
    (SinceStepIsOk(from.history, true, server, from.next);
     var step := SinceStep(from.history, true, server, from.next);
     var last := if AsksForRebuild(from, server) then RebuildStep(step.history, sel, server, step.next) else step;
     error == last.error && to == Head(last.history, last.next))
  }

  ghost function CountRebuilds(heads: seq<Head>, server: Server): nat {
    if heads == [] then 0
    else (if AsksForRebuild(heads[0], server) then 1 else 0) + CountRebuilds(heads[1..], server)
  }

  // Where the k-th poll ends: with the next one, or with the sync.
  function EndOf(r: Synced, k: nat): (Option<Error>, Head)
    requires k < |r.heads|
  {
    if k + 1 < |r.heads| then (None, r.heads[k + 1]) else (r.error, Head(r.history, r.next))
  }

  /** The sync polls from here, this many times unless a poll fails, and ends as its last poll does. */
  ghost predicate IsItsPolls(r: Synced, start: Head, sel: Selection, left: nat, server: Server, rebuilds: int) {
    && (left == 0 ==> r.heads == [] && r.error == None && Head(r.history, r.next) == start)
    && (left > 0 ==> r.heads != [] && r.heads[0] == start)
    && |r.heads| <= left && (r.error.None? ==> |r.heads| == left)
    && (forall k | 0 <= k < |r.heads| :: PollLeads(sel, server, r.heads[k], EndOf(r, k).0, EndOf(r, k).1))
    && r.rebuilds == rebuilds + CountRebuilds(r.heads, server)
  }

  lemma PollIsExact(h: History, sel: Selection, server: Server, n: nat)
    requires HistoryOk(h)
    ensures var (step, rebuilt) := Poll(h, sel, server, n);
            && PollLeads(sel, server, Head(h, n), step.error, Head(step.history, step.next))
            && rebuilt == if AsksForRebuild(Head(h, n), server) then 1 else 0
  {
    SinceStepIsOk(h, true, server, n);
  }

  lemma PollsCons(
      h: History, n: nat, sel: Selection, left: nat, server: Server, step: Stepped, rebuilt: nat, rest: Synced)
    requires PollLeads(sel, server, Head(h, n), None, Head(step.history, step.next))
    requires rebuilt == if AsksForRebuild(Head(h, n), server) then 1 else 0
    requires IsItsPolls(rest, Head(step.history, step.next), sel, left, server, 0)
    ensures var r := rest.(rebuilds := rebuilt + rest.rebuilds, heads := [Head(h, n)] + rest.heads);
            IsItsPolls(r, Head(h, n), sel, left + 1, server, 0)
  {
    hide PollLeads, AsksForRebuild;
    var r := rest.(rebuilds := rebuilt + rest.rebuilds, heads := [Head(h, n)] + rest.heads);
    assert r.heads[1..] == rest.heads;
    forall k | 0 <= k < |r.heads| ensures PollLeads(sel, server, r.heads[k], EndOf(r, k).0, EndOf(r, k).1) {
      if k > 0 {
        assert r.heads[k] == rest.heads[k - 1];
        assert EndOf(r, k) == EndOf(rest, k - 1);
      }
    }
  }

  lemma LastPoll(h: History, n: nat, sel: Selection, left: nat, server: Server, step: Stepped, rebuilt: nat)
    requires PollLeads(sel, server, Head(h, n), step.error, Head(step.history, step.next)) && step.error.Some?
    requires rebuilt == if AsksForRebuild(Head(h, n), server) then 1 else 0
    ensures IsItsPolls(
              Synced(step.history, step.error, step.next, rebuilt, [Head(h, n)]), Head(h, n), sel, left + 1, server, 0)
  {
    hide PollLeads, AsksForRebuild;
    var r := Synced(step.history, step.error, step.next, rebuilt, [Head(h, n)]);
    assert r.heads[1..] == [];
    assert CountRebuilds(r.heads[1..], server) == 0;
    assert EndOf(r, 0) == (step.error, Head(step.history, step.next));
  }

  lemma NoPolls(h: History, n: nat, sel: Selection, server: Server)
    ensures IsItsPolls(Synced(h, None, n, 0, []), Head(h, n), sel, 0, server, 0)
  {
  }

  lemma {:induction false} PollsAreExact(h: History, sel: Selection, left: nat, server: Server, n: nat)
    requires HistoryOk(h) && h != []
    ensures IsItsPolls(Polls(h, sel, left, server, n), Head(h, n), sel, left, server, 0)
    decreases left
  {
    hide Poll, PollLeads, AsksForRebuild, HistoryOk, Pollable, IsItsPolls;
    if left == 0 {
      NoPolls(h, n, sel, server);
    } else {
      var (step, rebuilt) := Poll(h, sel, server, n);
      PollIsOk(h, sel, server, n);
      PollIsExact(h, sel, server, n);
      if step.error.Some? {
        LastPoll(h, n, sel, left - 1, server, step, rebuilt);
      } else {
        PollsAreExact(step.history, sel, left - 1, server, step.next);
        PollsCons(h, n, sel, left - 1, server, step, rebuilt, Polls(step.history, sel, left - 1, server, step.next));
      }
    }
  }

  /** A sync rebuilds, and ends with the error of a rebuild that fails. Then it polls: a since call
      that fails with anything but a reset ends the sync with exactly its error and no rebuild; a
      reset, or a stale scope left behind, is followed by a rebuild; otherwise the next poll goes on
      from where the call ended. It rebuilds once, and once more for each poll that asks for it. */
  lemma SyncIsItsPolls(h: History, sel: Selection, polls: int, interval: int, server: Server, n: nat)
    requires HistoryOk(h) && polls >= 1 && interval >= 0
    ensures var r := SyncRun(h, sel, polls, interval, server, n);
            var first := RebuildStep(h, sel, server, n);
            if first.error.Some?
            then r == Synced(first.history, first.error, first.next, 1, [])
            else IsItsPolls(r, Head(first.history, first.next), sel, polls, server, 1)
  {
    hide RebuildStep, PollLeads, AsksForRebuild, Polls, HistoryOk;
    var first := RebuildStep(h, sel, server, n);
    RebuildStepIsOk(h, sel, server, n);
    if first.error.None? {
      PollsAreExact(first.history, sel, polls, server, first.next);
      var r := SyncRun(h, sel, polls, interval, server, n);
      var rest := Polls(first.history, sel, polls, server, first.next);
      assert forall k | 0 <= k < |r.heads| :: EndOf(r, k) == EndOf(rest, k);
    }
  }
}
