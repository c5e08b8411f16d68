/** A sync is a run of calls, so everything proved of runs holds of it; and what a successful sync
    returns is the server's tree. */
module SyncAgreement {
  import opened Paths
  import opened Documents
  import opened Views
  import opened Delta
  import opened Commits
  import opened Assembly
  import opened Runs
  import opened Agreement
  import opened Sync

  // --- the calls a sync makes

  ghost function PollEvents(h: History, sel: Selection, left: nat, server: Server, n: nat): seq<Event>
    requires HistoryOk(h) && h != []
    decreases left
  {
    if left == 0 then []
    else
      var (step, rebuilt) := Poll(h, sel, server, n);
      PollIsOk(h, sel, server, n);
      OnePoll(sel, rebuilt)
      + if step.error.Some? then [] else PollEvents(step.history, sel, left - 1, server, step.next)
  }

  function OnePoll(sel: Selection, rebuilt: nat): seq<Event> {
    if rebuilt == 0 then [ReadSince(true)] else [ReadSince(true), RebuildView(sel)]
  }

  ghost function SyncEvents(h: History, sel: Selection, polls: int, interval: int, server: Server, n: nat): seq<Event>
    requires HistoryOk(h)
  {
    if polls < 1 || interval < 0 then []
    else
      var step := RebuildStep(h, sel, server, n);
      RebuildStepIsOk(h, sel, server, n);
      [RebuildView(sel)] + if step.error.Some? then [] else PollEvents(step.history, sel, polls, server, step.next)
  }

  lemma RunCons(h: History, event: Event, rest: seq<Event>, server: Server, n: nat)
    requires HistoryOk(h)
    ensures var step := Step(h, event, server, n);
            && HistoryOk(step.history)
            && Run(h, [event] + rest, server, n) == Run(step.history, rest, server, step.next)
  {
    StepIsOk(h, event, server, n);
    assert ([event] + rest)[1..] == rest;
  }

  lemma PollIsRun(h: History, sel: Selection, server: Server, n: nat, rest: seq<Event>)
    requires HistoryOk(h)
    ensures var (step, rebuilt) := Poll(h, sel, server, n);
            && HistoryOk(step.history)
            && Run(h, OnePoll(sel, rebuilt) + rest, server, n) == Run(step.history, rest, server, step.next)
  {
    hide Run, HistoryOk, SinceStep, RebuildStep;
    var since := SinceStep(h, true, server, n);
    SinceStepIsOk(h, true, server, n);
    assert Step(h, ReadSince(true), server, n) == since;
    assert Step(since.history, RebuildView(sel), server, since.next)
           == RebuildStep(since.history, sel, server, since.next);
    RunCons(h, ReadSince(true), rest, server, n);
    RunCons(h, ReadSince(true), [RebuildView(sel)] + rest, server, n);
    RunCons(since.history, RebuildView(sel), rest, server, since.next);
    assert OnePoll(sel, 0) + rest == [ReadSince(true)] + rest;
    assert OnePoll(sel, 1) + rest == [ReadSince(true)] + ([RebuildView(sel)] + rest);
  }

  lemma RunOfNone(h: History, server: Server, n: nat)
    requires HistoryOk(h)
    ensures Run(h, [], server, n) == (h, n)
  {
  }

  lemma {:induction false} PollsAreRun(h: History, sel: Selection, left: nat, server: Server, n: nat)
    requires HistoryOk(h) && h != []
    ensures var r := Polls(h, sel, left, server, n);
            Run(h, PollEvents(h, sel, left, server, n), server, n) == (r.history, r.next)
    decreases left
  {
    hide Run, Poll, HistoryOk;
    if left == 0 {
      RunOfNone(h, server, n);
    } else {
      var (step, rebuilt) := Poll(h, sel, server, n);
      PollIsOk(h, sel, server, n);
      if step.error.Some? {
        PollIsRun(h, sel, server, n, []);
        RunOfNone(step.history, server, step.next);
      } else {
        PollIsRun(h, sel, server, n, PollEvents(step.history, sel, left - 1, server, step.next));
        PollsAreRun(step.history, sel, left - 1, server, step.next);
      }
    }
  }

  /** A sync does exactly what the run of its calls does. */
  lemma SyncIsRun(h: History, sel: Selection, polls: int, interval: int, server: Server, n: nat)
    requires HistoryOk(h)
    ensures var r := SyncRun(h, sel, polls, interval, server, n);
            Run(h, SyncEvents(h, sel, polls, interval, server, n), server, n) == (r.history, r.next)
  {
    hide Run, RebuildStep, HistoryOk, Polls, PollEvents;
    if polls < 1 || interval < 0 {
      RunOfNone(h, server, n);
    } else {
      var step := RebuildStep(h, sel, server, n);
      RebuildStepIsOk(h, sel, server, n);
      assert Step(h, RebuildView(sel), server, n) == step;
      if step.error.Some? {
        RunCons(h, RebuildView(sel), [], server, n);
        RunOfNone(step.history, server, step.next);
      } else {
        RunCons(h, RebuildView(sel), PollEvents(step.history, sel, polls, server, step.next), server, n);
        PollsAreRun(step.history, sel, polls, server, step.next);
      }
    }
  }

  // --- the selection of the view

  ghost predicate ForSelection(v: View, sel: Selection) {
    v.header.scopePath == SelectedScope(sel) && v.header.depth == sel.depth
  }

  lemma SinceStepKeepsSelection(h: History, onCurrent: bool, server: Server, n: nat, sel: Selection)
    requires HistoryOk(h) && h != [] && ForSelection(Current(h), sel)
    ensures var g := SinceStep(h, onCurrent, server, n).history; g != [] && ForSelection(Current(g), sel)
  {
    hide SinceOutcome, ViewOk;
    var v := Current(h);
    assert ViewOk(v);
    match SinceOutcome(v, server, n).0
    case Published(w) =>
      var first, s := PublishedIsCommitted(v, server, n, w);
      CommitRefinesMap(v, first, s);
    case Marked(w, error) =>
      var scope := MarkedScope(v, server, n, w, error);
    case _ =>
  }

  lemma PollKeepsSelection(h: History, sel: Selection, server: Server, n: nat)
    requires HistoryOk(h) && h != [] && ForSelection(Current(h), sel)
    ensures var g := Poll(h, sel, server, n).0.history; g != [] && ForSelection(Current(g), sel)
  {
    hide SinceStep, RebuildStep, ForSelection;
    var since := SinceStep(h, true, server, n);
    SinceStepIsOk(h, true, server, n);
    SinceStepKeepsSelection(h, true, server, n, sel);
    RebuiltForSelection(since.history, sel, server, since.next);
  }

  lemma RebuiltForSelection(h: History, sel: Selection, server: Server, n: nat)
    requires HistoryOk(h)
    ensures var step := RebuildStep(h, sel, server, n);
            if step.error.None? then step.history != [] && ForSelection(Current(step.history), sel)
            else step.history == h
  {
    RebuildStepIsOk(h, sel, server, n);
  }

  lemma {:induction false} PollsKeepSelection(h: History, sel: Selection, left: nat, server: Server, n: nat)
    requires HistoryOk(h) && h != [] && ForSelection(Current(h), sel)
    ensures var g := Polls(h, sel, left, server, n).history; g != [] && ForSelection(Current(g), sel)
    decreases left
  {
    hide Poll, ForSelection, HistoryOk, Pollable;
    if left > 0 {
      var (step, rebuilt) := Poll(h, sel, server, n);
      PollIsOk(h, sel, server, n);
      PollKeepsSelection(h, sel, server, n);
      if step.error.None? { PollsKeepSelection(step.history, sel, left - 1, server, step.next); }
    }
  }

  // --- what a sync returns

  /** The part of a tree that a selection is about. */
  ghost function Selected(header: Header, tree: NodeMap): NodeMap {
    map path | path in tree && ValidPath(path) && InView(header, path) :: tree[path]
  }

  /** A view without stale scopes that agrees with a tree is the selected part of it. */
  lemma FreshIsTotal(v: View, tree: NodeMap)
    requires ViewOk(v) && v.staleScopes == [] && Agrees(v, tree)
    ensures Table(v) == Selected(v.header, tree)
  {
    forall path ensures At(Table(v), path) == At(Selected(v.header, tree), path) {
      assert !IsStale(v, path);
      if path in Table(v) { assert ValidPath(path) && InView(v.header, path); }
      if ValidPath(path) && InView(v.header, path) { assert Agreement.Same(Table(v), tree, path); }
    }
    SameEverywhere(Table(v), Selected(v.header, tree));
  }

  lemma SameEverywhere(a: NodeMap, b: NodeMap)
    requires forall path :: At(a, path) == At(b, path)
    ensures a == b
  {
    forall path ensures path in a <==> path in b { assert At(a, path) == At(b, path); }
    forall path | path in a ensures a[path] == b[path] { assert At(a, path) == At(b, path); }
  }

  lemma SyncAgrees(
      world: World, h: History, sel: Selection, polls: int, interval: int, server: Server, n: nat)
    requires HistoryOk(h)
    requires HonestRun(world, h, SyncEvents(h, sel, polls, interval, server, n), server, n)
    requires SyncRun(h, sel, polls, interval, server, n).error.None?
    ensures var g := SyncRun(h, sel, polls, interval, server, n).history;
            g != [] && AgreesWith(world, Current(g)) && ForSelection(Current(g), sel)
  {
    hide AgreesWith, ForSelection, HonestStep, RebuildStep, Polls, PollEvents, Run;
    var step := RebuildStep(h, sel, server, n);
    RebuildStepIsOk(h, sel, server, n);
    var rest := PollEvents(step.history, sel, polls, server, step.next);
    assert Step(h, RebuildView(sel), server, n) == step;
    assert ([RebuildView(sel)] + rest)[1..] == rest;
    HonestHead(world, h, sel, server, n);
    RebuiltForSelection(h, sel, server, n);
    RunAgrees(world, step.history, rest, server, step.next);
    PollsAreRun(step.history, sel, polls, server, step.next);
    PollsKeepSelection(step.history, sel, polls, server, step.next);
  }

  lemma HonestHead(world: World, h: History, sel: Selection, server: Server, n: nat)
    requires HistoryOk(h) && HonestStep(world, h, RebuildView(sel), server, n)
    requires RebuildStep(h, sel, server, n).error.None?
    ensures CurrentAgrees(world, RebuildStep(h, sel, server, n).history)
  {
    RebuildStepAgrees(world, h, sel, server, n);
  }

  /** End to end: against a server that is honest in each rebuild and each published batch, a sync
      that succeeds with a revision returns exactly the selected part of the server's tree at that
      revision, whatever the client had read before. */
  lemma SyncReturnsTheTree(
      world: World, h: History, sel: Selection, polls: int, interval: int, server: Server, n: nat)
    requires HistoryOk(h)
    requires HonestRun(world, h, SyncEvents(h, sel, polls, interval, server, n), server, n)
    ensures var r := SyncRun(h, sel, polls, interval, server, n);
            r.error.None? ==>
              && r.history != []
              && var v := Current(r.history);
                 && ForSelection(v, sel)
                 && (v.header.revision >= 1 ==>
                       Table(v) == Selected(v.header, world(v.header.sessionID, v.header.revision)))
  {
    hide ForSelection, Agrees, SyncRun, SyncEvents, HonestRun, Selected, ViewOk;
    var r := SyncRun(h, sel, polls, interval, server, n);
    SyncEndsFresh(h, sel, polls, interval, server, n);
    if r.error.None? {
      SyncAgrees(world, h, sel, polls, interval, server, n);
      var v := Current(r.history);
      assert ViewOk(v);
      if v.header.revision >= 1 { FreshIsTotal(v, world(v.header.sessionID, v.header.revision)); }
    }
  }
}
