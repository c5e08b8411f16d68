/** Exactly when a since call publishes a new view, said without its loop, and which view that is. */
module Publications {
  import opened Wrappers
  import opened Paths
  import opened Documents
  import opened Views
  import opened Delta
  import opened Batches
  import opened Paging
  import opened Commits
  import opened Assembly
  import opened Listings
  import opened Runs

  /** After the capabilities, the server answers with a legal batch that moves the revision; its
      operations mean s, and s can be committed. */
  ghost predicate MovesTo(
      v: View, server: Server, n: nat, pages: seq<QuerySince>, extra: seq<nat>, s: Staged)
  {
    && IsBatch(v, server, n + 1, pages, extra)
    && pages[0].targetRevision != v.header.revision
    && Means(s, Ops(pages)) && Committable(v, s)
  }

  /** The view may be read at all: it has a revision, its root is not stale, and the server can. */
  ghost predicate Readable(v: View, server: Server, n: nat) {
    && v.header.revision >= 1 && !IsStale(v, v.header.scopePath)
    && server(n) == Answered(Capabilities(true))
  }

  lemma ReadableIsGuarded(v: View, server: Server, n: nat)
    ensures Readable(v, server, n) <==> GuardError(v).None? && CapabilityError(server(n)).None?
  {
  }

  // A batch with these operations can be committed exactly when what they mean can.
  lemma LegalIsCommitted(v: View, pages: seq<QuerySince>, s: Staged)
    requires ViewOk(v) && LegalPages(v, pages) && pages != [] && Means(s, Ops(pages))
    requires pages[0].targetRevision != v.header.revision
    ensures Commit(v, pages[0], StateAfter(v, pages, 0).staged) == Commit(v, pages[0], s)
    ensures StagedOk(v, s) && (Commit(v, pages[0], s).New? <==> Committable(v, s))
  {
    hide Commit, Committable, ViewOk, StagedOk;
    StagingIsExact(v, Ops(pages));
    AcceptedIsStagedOk(v, Ops(pages), s);
    CommitsExactly(v, pages[0], s);
    SameOperationsCommitAlike(
      v, Ops(pages), Ops(pages), pages[0], pages[0], StateAfter(v, pages, 0).staged, s);
  }

  lemma MovedBatchIsPublished(
      v: View, server: Server, n: nat, pages: seq<QuerySince>, extra: seq<nat>, s: Staged)
    requires ViewOk(v) && Readable(v, server, n) && MovesTo(v, server, n, pages, extra, s)
    ensures Commit(v, pages[0], s).New?
    ensures SinceOutcome(v, server, n) ==
            (Published(Commit(v, pages[0], s).view), n + 1 + |Transcript(pages, extra)|)
  {
    hide Commit, Committable, ViewOk, StagedOk, LegalPages, Collect, Means, Transcript, MarkStale;
    ReadableIsGuarded(v, server, n);
    LegalBatchIsAccepted(v, server, n + 1, pages, extra);
    LegalIsCommitted(v, pages, s);
  }

  lemma PublishedBatch(v: View, server: Server, n: nat)
    returns (pages: seq<QuerySince>, extra: seq<nat>, s: Staged)
    requires ViewOk(v) && SinceOutcome(v, server, n).0.Published?
    ensures Readable(v, server, n) && MovesTo(v, server, n, pages, extra, s)
  {
    hide Committable, StagedOk, ViewOk, IsBatch, Collect, Means, Transcript;
    ReadableIsGuarded(v, server, n);
    var first;
    first, s := PublishedIsCommitted(v, server, n, SinceOutcome(v, server, n).0.view);
    ScopeIsValid(v);
    pages, extra := AcceptedBatchMeans(v, server, n + 1, first, s);
    CommitsExactly(v, first, s);
  }

  /** A since call publishes exactly when the view is readable and the server answers with a legal,
      revision-moving, committable batch; then it publishes what committing the batch's operations
      gives, and uses exactly the answers of the batch. */
  lemma SincePublishesExactly(v: View, server: Server, n: nat)
    requires ViewOk(v)
    ensures SinceOutcome(v, server, n).0.Published? <==>
            && Readable(v, server, n)
            && exists pages, extra, s :: MovesTo(v, server, n, pages, extra, s)
    ensures forall pages, extra, s | Readable(v, server, n) && MovesTo(v, server, n, pages, extra, s) ::
              && Commit(v, pages[0], s).New?
              && SinceOutcome(v, server, n) ==
                 (Published(Commit(v, pages[0], s).view), n + 1 + |Transcript(pages, extra)|)
  {
    hide ViewOk, Commit, SinceOutcome;
    if SinceOutcome(v, server, n).0.Published? {
      var pages, extra, s := PublishedBatch(v, server, n);
    }
    forall pages, extra, s | Readable(v, server, n) && MovesTo(v, server, n, pages, extra, s)
      ensures Commit(v, pages[0], s).New?
      ensures SinceOutcome(v, server, n) ==
              (Published(Commit(v, pages[0], s).view), n + 1 + |Transcript(pages, extra)|)
    {
      MovedBatchIsPublished(v, server, n, pages, extra, s);
    }
  }

  /** The server answers with a legal batch that leaves the revision alone. */
  ghost predicate StaysPut(v: View, server: Server, n: nat, pages: seq<QuerySince>, extra: seq<nat>) {
    IsBatch(v, server, n + 1, pages, extra) && pages[0].targetRevision == v.header.revision
  }

  /** A since call succeeds without publishing exactly when the view is readable and the server
      answers with a legal batch that leaves the revision alone. */
  lemma SinceKeepsExactly(v: View, server: Server, n: nat)
    requires ValidPath(v.header.scopePath)
    ensures SinceOutcome(v, server, n).0.Unchanged? <==>
            Readable(v, server, n) && exists pages, extra :: StaysPut(v, server, n, pages, extra)
  {
    hide LegalPages;
    ReadableIsGuarded(v, server, n);
    if SinceOutcome(v, server, n).0.Unchanged? {
      var pages, extra := AcceptedBatchIsLegal(v, server, n + 1);
      LegalBatchIsAccepted(v, server, n + 1, pages, extra);
      assert StaysPut(v, server, n, pages, extra);
    }
    if Readable(v, server, n) && exists pages, extra :: StaysPut(v, server, n, pages, extra) {
      var pages, extra :| StaysPut(v, server, n, pages, extra);
      LegalBatchIsAccepted(v, server, n + 1, pages, extra);
    }
  }

  // --- the steps of a run

  /** A since call on the current view succeeds exactly with a batch it publishes or one that leaves
      the revision alone. It appends the committed view and uses exactly the answers of the batch, or
      leaves the history as it is. A call that marks appends the marked view and reports its error. */
  lemma SinceStepIsExact(h: History, server: Server, n: nat)
    requires HistoryOk(h) && h != [] && !server(n).NotOpened?
    ensures var (v, step) := (Current(h), SinceStep(h, true, server, n));
            && (step.error.None? <==>
                  && Readable(v, server, n)
                  && ((exists pages, extra, s :: MovesTo(v, server, n, pages, extra, s))
                      || exists pages, extra :: StaysPut(v, server, n, pages, extra)))
            && (Readable(v, server, n) ==>
                  forall pages, extra, s | MovesTo(v, server, n, pages, extra, s) ::
                    && Commit(v, pages[0], s).New?
                    && step == Stepped(h + [Commit(v, pages[0], s).view], None, n + 1 + |Transcript(pages, extra)|))
            && (Readable(v, server, n) ==>
                  forall pages, extra | StaysPut(v, server, n, pages, extra) ::
                    step == Stepped(h, None, n + 1 + |Transcript(pages, extra)|))
            && (SinceOutcome(v, server, n).0.Marked? ==>
                  step == Stepped(h + [SinceOutcome(v, server, n).0.view], Some(SinceOutcome(v, server, n).0.error),
                                  SinceOutcome(v, server, n).1))
  {
    hide ViewOk, SinceOutcome, Commit, Readable, Transcript, LegalPages, Means, Serves, Committable;
    var v := Current(h);
    assert ViewOk(v);
    ScopeIsValid(v);
    SincePublishesExactly(v, server, n);
    SinceKeepsExactly(v, server, n);
    forall pages, extra | Readable(v, server, n) && StaysPut(v, server, n, pages, extra)
      ensures SinceStep(h, true, server, n) == Stepped(h, None, n + 1 + |Transcript(pages, extra)|)
    {
      StayedBatchIsKept(v, server, n, pages, extra);
    }
  }

  lemma StayedBatchIsKept(v: View, server: Server, n: nat, pages: seq<QuerySince>, extra: seq<nat>)
    requires Readable(v, server, n) && StaysPut(v, server, n, pages, extra)
    ensures SinceOutcome(v, server, n) == (Unchanged, n + 1 + |Transcript(pages, extra)|)
  {
    hide LegalPages, Collect, Means, Transcript, Serves;
    ReadableIsGuarded(v, server, n);
    LegalBatchIsAccepted(v, server, n + 1, pages, extra);
  }

  /** A rebuild, as a step: it appends the view of the legal listing the server sends, and uses
      exactly its pages; otherwise it leaves the history as it is and reports its error. */
  lemma RebuildStepIsExact(h: History, sel: Selection, server: Server, n: nat)
    requires HistoryOk(h)
    ensures var step := RebuildStep(h, sel, server, n);
            if server(n).NotOpened? then step == Stepped(h, Some(CallError), n + 1)
            else
              && (step.error.None? <==>
                    Askable(sel) && exists pages :: ServesLegalListing(sel, CurrentSize(h), server, n, pages))
              && (Askable(sel) ==>
                    forall pages | ServesLegalListing(sel, CurrentSize(h), server, n, pages) ::
                      step == Stepped(h + [ListedView(sel, pages)], None, n + |pages|))
              && var (built, next) := Rebuild(sel, CurrentSize(h), server, n);
                 (built.Err? ==> step == Stepped(h, Some(built.error), next))
  {
    hide Rebuild, ServesLegalListing, ListedView, HistoryOk;
    RebuildIsExact(sel, CurrentSize(h), server, n);
  }
}
