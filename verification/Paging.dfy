/** Exactly which runs of answers the since loop accepts: a legal sequence of pages, each
    non-final one possibly answered up to twice more. */
module Paging {
  import opened Wrappers
  import opened Paths
  import opened Documents
  import opened Views
  import opened Delta
  import opened Batches

  function Ops(pages: seq<QuerySince>): seq<QueryOperation> {
    if pages == [] then [] else Ops(pages[..|pages| - 1]) + pages[|pages| - 1].operations
  }

  function Cost(pages: seq<QuerySince>): int {
    if pages == [] then 0 else Cost(pages[..|pages| - 1]) + pages[|pages| - 1].encodedLength + 1024
  }

  ghost predicate PagesAgree(v: View, pages: seq<QuerySince>) {
    forall i | 0 <= i < |pages| ::
      && ValidSince(pages[i]) && pages[i].pageIndex == i
      && pages[i].sessionID == v.header.sessionID && pages[i].queryID == v.header.queryID
      && pages[i].fromRevision == v.header.revision
      && pages[i].batchID == pages[0].batchID && pages[i].targetRevision == pages[0].targetRevision
      && pages[i].asOf == pages[0].asOf && pages[i].expiresAt == pages[0].expiresAt
  }

  lemma {:induction false} OpsAreValid(pages: seq<QuerySince>)
    requires forall i | 0 <= i < |pages| :: ValidSince(pages[i])
    ensures AllValid(Ops(pages))
  {
    if pages != [] {
      OpsAreValid(pages[..|pages| - 1]);
      assert ValidSince(pages[|pages| - 1]);
    }
  }

  /** Pages of one batch for this view: in order, within the budget, every operation allowed by the
      view and mentioned once. */
  ghost predicate LegalPages(v: View, pages: seq<QuerySince>) {
    && ValidPath(v.header.scopePath)
    && PagesAgree(v, pages)
    && Cost(pages) <= QUERY_DELTA_BATCH_BUDGET
    && AllValid(Ops(pages))
    && Accepted(v, Ops(pages))
  }

  ghost predicate OpenPages(pages: seq<QuerySince>) {
    forall i | 0 <= i < |pages| :: !pages[i].complete
  }

  ghost predicate ClosedPages(pages: seq<QuerySince>) {
    pages != [] && OpenPages(pages[..|pages| - 1]) && pages[|pages| - 1].complete
  }

  // --- what the server says

  function Copies(page: QuerySince, count: nat): seq<Reply> {
    seq(count, _ => Answered(Since(page)))
  }

  // The answers that carry these pages, page i once and then extra[i] more times.
  function Transcript(pages: seq<QuerySince>, extra: seq<nat>): seq<Reply>
    requires |extra| == |pages|
  {
    if pages == [] then []
    else
      var k := |pages| - 1;
      Transcript(pages[..k], extra[..k]) + Copies(pages[k], 1 + extra[k])
  }

  ghost predicate Serves(server: Server, n: nat, answers: seq<Reply>) {
    forall i | 0 <= i < |answers| :: server(n + i) == answers[i]
  }

  ghost predicate ReplaysOk(extra: seq<nat>) {
    forall i | 0 <= i < |extra| :: extra[i] <= 2
  }

  // --- the state of the loop after some open pages

  ghost function StateAfter(v: View, pages: seq<QuerySince>, replays: nat): Batch
    requires LegalPages(v, pages)
  {
    StagingIsExact(v, Ops(pages));
    Batch(StageAll(v, NOTHING_STAGED, Ops(pages)).value,
          if pages == [] then None else Some(pages[0]),
          if pages == [] then None else Some(pages[|pages| - 1]),
          replays, Cost(pages), |pages|)
  }

  lemma OpsSnoc(pages: seq<QuerySince>, page: QuerySince)
    ensures Ops(pages + [page]) == Ops(pages) + page.operations
    ensures Cost(pages + [page]) == Cost(pages) + page.encodedLength + 1024
  {
    assert (pages + [page])[..|pages|] == pages;
  }

  lemma AcceptedPrefix(v: View, ops: seq<QueryOperation>, more: seq<QueryOperation>)
    requires AllValid(ops + more) && Accepted(v, ops + more)
    ensures AllValid(ops) && Accepted(v, ops)
  {
    var all := ops + more;
    assert forall i | 0 <= i < |ops| :: all[i] == ops[i];
  }

  lemma LegalSnoc(v: View, pages: seq<QuerySince>, page: QuerySince)
    requires LegalPages(v, pages) && ValidSince(page)
    ensures LegalPages(v, pages + [page]) <==>
            && OwnIdentity(v, page) && page.pageIndex == |pages|
            && (pages != [] ==> SameBatch(pages[0], page))
            && Cost(pages) + page.encodedLength + 1024 <= QUERY_DELTA_BATCH_BUDGET
            && StageAll(v, StateAfter(v, pages, 0).staged, page.operations).Some?
    ensures LegalPages(v, pages + [page]) ==>
            Some(StateAfter(v, pages + [page], 0).staged) ==
            StageAll(v, StateAfter(v, pages, 0).staged, page.operations)
  {
    var all := pages + [page];
    OpsSnoc(pages, page);
    assert forall i | 0 <= i < |pages| :: all[i] == pages[i];
    assert all[|pages|] == page;
    AgreeSnoc(v, pages, page);
    OpsAreValid(all);
    StageAllConcat(v, NOTHING_STAGED, Ops(pages), page.operations);
    StagingIsExact(v, Ops(pages));
    StagingIsExact(v, Ops(all));
  }

  lemma AgreeSnoc(v: View, pages: seq<QuerySince>, page: QuerySince)
    requires PagesAgree(v, pages) && ValidSince(page)
    ensures PagesAgree(v, pages + [page]) <==>
            && OwnIdentity(v, page) && page.pageIndex == |pages|
            && (pages != [] ==> SameBatch(pages[0], page))
  {
    var all := pages + [page];
    assert forall i | 0 <= i < |pages| :: all[i] == pages[i];
    assert all[|pages|] == page;
  }

  lemma LegalPrefix(v: View, pages: seq<QuerySince>)
    requires pages != [] && LegalPages(v, pages)
    ensures LegalPages(v, pages[..|pages| - 1])
  {
    var init := pages[..|pages| - 1];
    assert ValidSince(pages[|pages| - 1]);
    OpsAreValid(init);
    AcceptedPrefix(v, Ops(init), pages[|pages| - 1].operations);
  }

  /** One more answer: what the loop makes of any valid page, in terms of the pages so far. */
  lemma ReceiveIsExact(v: View, pages: seq<QuerySince>, replays: nat, page: QuerySince)
    requires LegalPages(v, pages) && ValidSince(page) && replays <= 2
    ensures var received := ReceivePage(v, StateAfter(v, pages, replays), page);
            && (received.Done? <==> LegalPages(v, pages + [page]) && page.complete)
            && (received.Done? ==>
                  received == Received.Done((pages + [page])[0], StateAfter(v, pages + [page], 0).staged))
            && (received.More? <==>
                  || (pages != [] && page == pages[|pages| - 1] && replays < 2)
                  || (LegalPages(v, pages + [page]) && !page.complete))
            && (received.More? ==>
                  received.batch == if pages != [] && page == pages[|pages| - 1]
                                    then StateAfter(v, pages, replays + 1)
                                    else StateAfter(v, pages + [page], 0))
  {
    hide LegalPages, StageAll, OwnIdentity, SameBatch, Ops;
    LegalSnoc(v, pages, page);
    OpsSnoc(pages, page);
    if pages != [] { LastPageIs(v, pages); }
  }

  lemma LastPageIs(v: View, pages: seq<QuerySince>)
    requires LegalPages(v, pages) && pages != []
    ensures var last := pages[|pages| - 1]; ValidSince(last) && last.pageIndex == |pages| - 1
  {
  }

  // --- soundness: what was used was legal

  ghost predicate IsBatch(v: View, server: Server, n: nat, pages: seq<QuerySince>, extra: seq<nat>) {
    && |extra| == |pages|
    && LegalPages(v, pages) && ClosedPages(pages)
    && ReplaysOk(extra) && extra[|extra| - 1] == 0
    && Serves(server, n, Transcript(pages, extra))
  }

  ghost predicate IsResult(v: View, n: nat, pages: seq<QuerySince>, extra: seq<nat>, result: (Received, nat))
    requires LegalPages(v, pages) && pages != [] && |extra| == |pages|
  {
    && result.0 == Received.Done(pages[0], StateAfter(v, pages, 0).staged)
    && result.1 == n + |Transcript(pages, extra)|
  }

  function LastExtra(extra: seq<nat>): nat {
    if extra == [] then 0 else extra[|extra| - 1]
  }

  lemma TranscriptSnoc(pages: seq<QuerySince>, extra: seq<nat>, page: QuerySince, more: nat)
    requires |extra| == |pages|
    ensures Transcript(pages + [page], extra + [more]) == Transcript(pages, extra) + Copies(page, 1 + more)
  {
    assert (pages + [page])[..|pages|] == pages && (extra + [more])[..|extra|] == extra;
  }

  lemma OneMoreCopy(page: QuerySince, count: nat)
    ensures Copies(page, count + 1) == Copies(page, count) + [Answered(Since(page))]
  {
  }

  // The loop state and what was served, after open pages and their replays.
  ghost predicate Underway(v: View, server: Server, n0: nat, pages: seq<QuerySince>, extra: seq<nat>, n: nat) {
    && |extra| == |pages|
    && LegalPages(v, pages) && OpenPages(pages) && ReplaysOk(extra)
    && Serves(server, n0, Transcript(pages, extra))
    && n == n0 + |Transcript(pages, extra)|
  }

  lemma TranscriptReplay(pages: seq<QuerySince>, extra: seq<nat>)
    requires |extra| == |pages| && pages != []
    ensures Transcript(pages, extra[|extra| - 1 := LastExtra(extra) + 1])
            == Transcript(pages, extra) + [Answered(Since(pages[|pages| - 1]))]
  {
    var k := |pages| - 1;
    var next := extra[k := extra[k] + 1];
    assert next[..k] == extra[..k];
    OneMoreCopy(pages[k], 1 + extra[k]);
  }

  lemma ServesSnoc(server: Server, n: nat, answers: seq<Reply>, reply: Reply)
    requires Serves(server, n, answers) && server(n + |answers|) == reply
    ensures Serves(server, n, answers + [reply])
  {
  }

  lemma UnderwayReplay(
      v: View, server: Server, n0: nat, pages: seq<QuerySince>, extra: seq<nat>, n: nat, more: seq<nat>)
    requires Underway(v, server, n0, pages, extra, n) && pages != [] && LastExtra(extra) < 2
    requires server(n) == Answered(Since(pages[|pages| - 1]))
    requires more == extra[|extra| - 1 := LastExtra(extra) + 1]
    ensures Underway(v, server, n0, pages, more, n + 1)
  {
    hide LegalPages, OpenPages, Transcript, Serves;
    TranscriptReplay(pages, extra);
    ServesSnoc(server, n0, Transcript(pages, extra), server(n));
  }

  lemma UnderwayPage(
      v: View, server: Server, n0: nat, pages: seq<QuerySince>, extra: seq<nat>, n: nat, page: QuerySince)
    requires Underway(v, server, n0, pages, extra, n)
    requires server(n) == Answered(Since(page)) && LegalPages(v, pages + [page])
    ensures Serves(server, n0, Transcript(pages + [page], extra + [0]))
    ensures n + 1 == n0 + |Transcript(pages + [page], extra + [0])|
    ensures !page.complete ==> Underway(v, server, n0, pages + [page], extra + [0], n + 1)
  {
    TranscriptSnoc(pages, extra, page, 0);
    assert Copies(page, 1) == [Answered(Since(page))];
  }

  // From these pages on, the loop ends with this result.
  ghost predicate EndsWith(
      v: View, pages: seq<QuerySince>, replays: nat, server: Server, n: nat, result: (Received, nat))
    requires LegalPages(v, pages)
  {
    replays <= 2 && Collect(v, StateAfter(v, pages, replays), server, n) == result
  }

  // One turn of the loop: it stops, or goes on after a replay or one more open page.
  lemma LoopTurn(v: View, pages: seq<QuerySince>, replays: nat, server: Server, n: nat, result: (Received, nat))
    requires LegalPages(v, pages) && EndsWith(v, pages, replays, server, n, result)
    ensures var received := Receive(v, StateAfter(v, pages, replays), server(n));
            if !received.More? then result == (received, n + 1)
            else
              && server(n).Answered? && server(n).document.Since?
              && var page := server(n).document.batchPage;
                 if pages != [] && page == pages[|pages| - 1] && replays < 2
                 then EndsWith(v, pages, replays + 1, server, n + 1, result)
                 else
                   && LegalPages(v, pages + [page]) && !page.complete
                   && EndsWith(v, pages + [page], 0, server, n + 1, result)
  {
    if Receive(v, StateAfter(v, pages, replays), server(n)).More? {
      var page := server(n).document.batchPage;
      ReceiveIsExact(v, pages, replays, page);
      assert pages != [] && page == pages[|pages| - 1] ==> page.pageIndex == |pages| - 1;
      AgreeSnoc(v, pages, page);
    }
  }

  lemma Closing(
      v: View, server: Server, n0: nat, pages: seq<QuerySince>, extra: seq<nat>, n: nat, page: QuerySince)
    requires Underway(v, server, n0, pages, extra, n)
    requires server(n) == Answered(Since(page)) && LegalPages(v, pages + [page]) && page.complete
    ensures IsBatch(v, server, n0, pages + [page], extra + [0])
    ensures n + 1 == n0 + |Transcript(pages + [page], extra + [0])|
  {
    UnderwayPage(v, server, n0, pages, extra, n, page);
    assert (pages + [page])[..|pages|] == pages;
  }

  lemma CostGrows(v: View, pages: seq<QuerySince>, page: QuerySince)
    requires LegalPages(v, pages + [page])
    ensures Cost(pages) < Cost(pages + [page]) <= QUERY_DELTA_BATCH_BUDGET
  {
    OpsSnoc(pages, page);
    assert ValidSince((pages + [page])[|pages|]);
  }

  // After one more replay of the last page.
  lemma OneMoreReplay(v: View, server: Server, n0: nat, pages: seq<QuerySince>, extra: seq<nat>, n: nat)
    returns (more: seq<nat>)
    requires Underway(v, server, n0, pages, extra, n) && pages != [] && LastExtra(extra) < 2
    requires server(n) == Answered(Since(pages[|pages| - 1]))
    ensures Underway(v, server, n0, pages, more, n + 1) && LastExtra(more) == LastExtra(extra) + 1
  {
    more := extra[|extra| - 1 := LastExtra(extra) + 1];
    UnderwayReplay(v, server, n0, pages, extra, n, more);
  }

  // After one more open page: some budget is used, and the replays start anew.
  lemma OneMorePage(v: View, pages: seq<QuerySince>, extra: seq<nat>, page: QuerySince)
    requires LegalPages(v, pages + [page])
    ensures Cost(pages) < Cost(pages + [page]) <= QUERY_DELTA_BATCH_BUDGET
    ensures LastExtra(extra + [0]) == 0
  {
    CostGrows(v, pages, page);
  }

  lemma ClosedResult(
      v: View, n0: nat, pages: seq<QuerySince>, extra: seq<nat>, n: nat, page: QuerySince, result: (Received, nat))
    requires |extra| == |pages| && LegalPages(v, pages + [page])
    requires n + 1 == n0 + |Transcript(pages + [page], extra + [0])|
    requires result == (Received.Done((pages + [page])[0], StateAfter(v, pages + [page], 0).staged), n + 1)
    ensures IsResult(v, n0, pages + [page], extra + [0], result)
  {
  }

  /** The loop stops with this result at answer m, after these pages. */
  ghost predicate StopsAt(
      v: View, pages: seq<QuerySince>, replays: nat, server: Server, m: nat, result: (Received, nat))
    requires LegalPages(v, pages)
  {
    result == (Receive(v, StateAfter(v, pages, replays), server(m)), m + 1)
  }

  lemma {:induction false} StopsFrom(
      v: View, server: Server, n0: nat, pages: seq<QuerySince>, extra: seq<nat>, n: nat, result: (Received, nat))
    returns (allPages: seq<QuerySince>, allExtra: seq<nat>, m: nat)
    requires Underway(v, server, n0, pages, extra, n)
    requires EndsWith(v, pages, LastExtra(extra), server, n, result)
    ensures Underway(v, server, n0, allPages, allExtra, m)
    ensures StopsAt(v, allPages, LastExtra(allExtra), server, m, result)
    decreases QUERY_DELTA_BATCH_BUDGET - Cost(pages), 2 - LastExtra(extra)
  {
    hide EndsWith, LegalPages, OpenPages, ReplaysOk, Serves, Transcript, Cost, LastExtra, Receive, SameBatch;
    LoopTurn(v, pages, LastExtra(extra), server, n, result);
    if !Receive(v, StateAfter(v, pages, LastExtra(extra)), server(n)).More? {
      allPages, allExtra, m := pages, extra, n;
    } else {
      var page := server(n).document.batchPage;
      if pages != [] && page == pages[|pages| - 1] && LastExtra(extra) < 2 {
        var more := OneMoreReplay(v, server, n0, pages, extra, n);
        allPages, allExtra, m := StopsFrom(v, server, n0, pages, more, n + 1, result);
      } else {
        UnderwayPage(v, server, n0, pages, extra, n, page);
        OneMorePage(v, pages, extra, page);
        allPages, allExtra, m := StopsFrom(v, server, n0, pages + [page], extra + [0], n + 1, result);
      }
    }
  }

  /** Whatever the server sends, the loop stops at some answer after the open pages of a legal batch,
      in order, each with at most two identical replays. */
  lemma LoopStops(v: View, server: Server, n: nat)
    returns (pages: seq<QuerySince>, extra: seq<nat>, m: nat)
    requires ValidPath(v.header.scopePath)
    ensures Underway(v, server, n, pages, extra, m)
    ensures StopsAt(v, pages, LastExtra(extra), server, m, Collect(v, EMPTY_BATCH, server, n))
  {
    hide EndsWith, Collect;
    StartState(v, server, n);
    pages, extra, m := StopsFrom(v, server, n, [], [], n, Collect(v, EMPTY_BATCH, server, n));
  }

  lemma StoppedByPage(v: View, pages: seq<QuerySince>, replays: nat, reply: Reply) returns (page: QuerySince)
    requires LegalPages(v, pages) && replays <= 2
    requires Receive(v, StateAfter(v, pages, replays), reply).Done?
    ensures reply == Answered(Since(page)) && LegalPages(v, pages + [page]) && page.complete
    ensures Receive(v, StateAfter(v, pages, replays), reply)
            == Received.Done((pages + [page])[0], StateAfter(v, pages + [page], 0).staged)
  {
    page := reply.document.batchPage;
    ReceiveIsExact(v, pages, replays, page);
  }

  /** Whenever the loop accepts a batch, the answers it used were the pages of a legal batch, in
      order, with at most two identical replays after each non-final page, and nothing was staged
      but what those pages say. */
  lemma AcceptedBatchIsLegal(v: View, server: Server, n: nat)
    returns (pages: seq<QuerySince>, extra: seq<nat>)
    requires ValidPath(v.header.scopePath) && Collect(v, EMPTY_BATCH, server, n).0.Done?
    ensures IsBatch(v, server, n, pages, extra)
    ensures IsResult(v, n, pages, extra, Collect(v, EMPTY_BATCH, server, n))
  {
    hide LegalPages, Collect, Receive, IsBatch, IsResult, Transcript, Serves;
    var open, less, m := LoopStops(v, server, n);
    LastExtraOk(less);
    var page := StoppedByPage(v, open, LastExtra(less), server(m));
    Closing(v, server, n, open, less, m, page);
    pages, extra := open + [page], less + [0];
    ClosedResult(v, n, open, less, m, page, Collect(v, EMPTY_BATCH, server, n));
  }

  lemma LastExtraOk(extra: seq<nat>)
    requires ReplaysOk(extra)
    ensures LastExtra(extra) <= 2
  {
  }

  // --- completeness: what is legal is accepted

  lemma LegalTurn(
      v: View, pages: seq<QuerySince>, replays: nat, server: Server, n: nat, page: QuerySince, result: (Received, nat))
    requires LegalPages(v, pages) && EndsWith(v, pages, replays, server, n, result)
    requires server(n) == Answered(Since(page)) && LegalPages(v, pages + [page])
    ensures page.complete ==> result.0 == Received.Done((pages + [page])[0], StateAfter(v, pages + [page], 0).staged)
    ensures page.complete ==> result.1 == n + 1
    ensures !page.complete ==> EndsWith(v, pages + [page], 0, server, n + 1, result)
  {
    assert ValidSince((pages + [page])[|pages|]);
    ReceiveIsExact(v, pages, replays, page);
    AgreeSnoc(v, pages, page);
    assert pages != [] ==> pages[|pages| - 1].pageIndex == |pages| - 1;
  }

  lemma ReplayTurn(
      v: View, pages: seq<QuerySince>, replays: nat, server: Server, n: nat, result: (Received, nat))
    requires LegalPages(v, pages) && pages != [] && replays < 2
    requires EndsWith(v, pages, replays, server, n, result)
    requires server(n) == Answered(Since(pages[|pages| - 1]))
    ensures EndsWith(v, pages, replays + 1, server, n + 1, result)
  {
    ReceiveIsExact(v, pages, replays, pages[|pages| - 1]);
  }

  lemma LastCopyServed(server: Server, n: nat, page: QuerySince, count: nat)
    requires Serves(server, n, Copies(page, count + 1))
    ensures Serves(server, n, Copies(page, count)) && server(n + count) == Answered(Since(page))
  {
    OneMoreCopy(page, count);
    ServesSplit(server, n, Copies(page, count), [Answered(Since(page))]);
    assert server(n + count + 0) == [Answered(Since(page))][0];
  }

  lemma {:induction false} ReplayTurns(
      v: View, pages: seq<QuerySince>, count: nat, server: Server, n: nat, result: (Received, nat))
    requires LegalPages(v, pages) && pages != [] && count <= 2
    requires EndsWith(v, pages, 0, server, n, result)
    requires Serves(server, n, Copies(pages[|pages| - 1], count))
    ensures EndsWith(v, pages, count, server, n + count, result)
  {
    hide EndsWith, LegalPages, Serves;
    if count > 0 {
      LastCopyServed(server, n, pages[|pages| - 1], count - 1);
      ReplayTurns(v, pages, count - 1, server, n, result);
      ReplayTurn(v, pages, count - 1, server, n + (count - 1), result);
    }
  }

  lemma ServesSplit(server: Server, n: nat, a: seq<Reply>, b: seq<Reply>)
    requires Serves(server, n, a + b)
    ensures Serves(server, n, a) && Serves(server, n + |a|, b)
  {
    forall i | 0 <= i < |a| ensures server(n + i) == a[i] { assert (a + b)[i] == a[i]; }
    forall i | 0 <= i < |b| ensures server(n + |a| + i) == b[i] {
      assert (a + b)[|a| + i] == b[i];
      assert server(n + (|a| + i)) == (a + b)[|a| + i];
    }
  }

  lemma TranscriptLast(pages: seq<QuerySince>, extra: seq<nat>)
    requires |extra| == |pages| && pages != []
    ensures var k := |pages| - 1;
            Transcript(pages, extra)
            == Transcript(pages[..k], extra[..k]) + ([Answered(Since(pages[k]))] + Copies(pages[k], extra[k]))
  {
    hide Transcript, Copies;
    TranscriptEnd(pages, extra);
    FirstCopy(pages[|pages| - 1], extra[|pages| - 1]);
  }

  lemma TranscriptEnd(pages: seq<QuerySince>, extra: seq<nat>)
    requires |extra| == |pages| && pages != []
    ensures var k := |pages| - 1;
            Transcript(pages, extra) == Transcript(pages[..k], extra[..k]) + Copies(pages[k], 1 + extra[k])
  {
    hide Copies;
  }

  lemma FirstCopy(page: QuerySince, count: nat)
    ensures Copies(page, 1 + count) == [Answered(Since(page))] + Copies(page, count)
  {
  }

  // The answers before the last page, the last page itself, and its replays.
  lemma ServesLast(server: Server, n: nat, pages: seq<QuerySince>, extra: seq<nat>)
    requires |extra| == |pages| && pages != []
    requires Serves(server, n, Transcript(pages, extra))
    ensures var k := |pages| - 1;
            var m := n + |Transcript(pages[..k], extra[..k])|;
            && Serves(server, n, Transcript(pages[..k], extra[..k]))
            && server(m) == Answered(Since(pages[k]))
            && Serves(server, m + 1, Copies(pages[k], extra[k]))
            && n + |Transcript(pages, extra)| == m + 1 + extra[k]
  {
    var k := |pages| - 1;
    var before := Transcript(pages[..k], extra[..k]);
    var tail := [Answered(Since(pages[k]))] + Copies(pages[k], extra[k]);
    TranscriptLast(pages, extra);
    ServesSplit(server, n, before, tail);
    ServesSplit(server, n + |before|, [Answered(Since(pages[k]))], Copies(pages[k], extra[k]));
    assert server(n + |before| + 0) == tail[0];
  }

  // The loop just before the last page, for pages of which only the last may be complete.
  lemma UnderwayBefore(v: View, server: Server, n: nat, pages: seq<QuerySince>, extra: seq<nat>)
    returns (before: seq<QuerySince>, less: seq<nat>, at: nat)
    requires |extra| == |pages| && pages != [] && LegalPages(v, pages)
    requires OpenPages(pages[..|pages| - 1]) && ReplaysOk(extra)
    requires Serves(server, n, Transcript(pages, extra))
    ensures before + [pages[|pages| - 1]] == pages && less == extra[..|extra| - 1]
    ensures Underway(v, server, n, before, less, at)
    ensures server(at) == Answered(Since(pages[|pages| - 1]))
    ensures Serves(server, at + 1, Copies(pages[|pages| - 1], extra[|extra| - 1]))
    ensures n + |Transcript(pages, extra)| == at + 1 + extra[|extra| - 1]
  {
    var k := |pages| - 1;
    before, less := pages[..k], extra[..k];
    LegalPrefix(v, pages);
    ServesLast(server, n, pages, extra);
    at := n + |Transcript(before, less)|;
  }

  lemma StartState(v: View, server: Server, n: nat)
    requires ValidPath(v.header.scopePath)
    ensures LegalPages(v, []) && EndsWith(v, [], 0, server, n, Collect(v, EMPTY_BATCH, server, n))
  {
    assert StateAfter(v, [], 0) == EMPTY_BATCH;
  }

  lemma {:induction false} OpenPagesAreTaken(
      v: View, server: Server, n: nat, pages: seq<QuerySince>, extra: seq<nat>, m: nat, result: (Received, nat))
    requires Underway(v, server, n, pages, extra, m)
    requires result == Collect(v, EMPTY_BATCH, server, n)
    ensures EndsWith(v, pages, LastExtra(extra), server, m, result)
    decreases |pages|
  {
    if pages == [] {
      StartState(v, server, n);
    } else {
      var before, less, at := UnderwayBefore(v, server, n, pages, extra);
      OpenPagesAreTaken(v, server, n, before, less, at, result);
      TakeLast(v, server, before, LastExtra(less), at, pages, extra[|extra| - 1], m, result);
    }
  }

  lemma TakeLast(
      v: View, server: Server, before: seq<QuerySince>, replays: nat, at: nat,
      pages: seq<QuerySince>, more: nat, m: nat, result: (Received, nat))
    requires pages != [] && pages == before + [pages[|pages| - 1]] && m == at + 1 + more
    requires LegalPages(v, before) && LegalPages(v, pages) && more <= 2 && !pages[|pages| - 1].complete
    requires EndsWith(v, before, replays, server, at, result)
    requires server(at) == Answered(Since(pages[|pages| - 1]))
    requires Serves(server, at + 1, Copies(pages[|pages| - 1], more))
    ensures EndsWith(v, pages, more, server, m, result)
  {
    hide EndsWith;
    LegalTurn(v, before, replays, server, at, pages[|pages| - 1], result);
    ReplayTurns(v, pages, more, server, at + 1, result);
  }

  /** Every legal batch is accepted, however it is paged and however often (up to twice) its
      non-final pages are replayed, and exactly its operations are staged. */
  lemma LegalBatchIsAccepted(v: View, server: Server, n: nat, pages: seq<QuerySince>, extra: seq<nat>)
    requires IsBatch(v, server, n, pages, extra)
    ensures IsResult(v, n, pages, extra, Collect(v, EMPTY_BATCH, server, n))
    ensures Means(StateAfter(v, pages, 0).staged, Ops(pages))
  {
    hide LegalPages, Collect, EndsWith, Serves, Transcript, Means, LastExtra, StateAfter;
    var result := Collect(v, EMPTY_BATCH, server, n);
    var before, less, at := UnderwayBefore(v, server, n, pages, extra);
    OpenPagesAreTaken(v, server, n, before, less, at, result);
    LegalTurn(v, before, LastExtra(less), server, at, pages[|pages| - 1], result);
    LegalPagesMean(v, pages);
  }

  lemma LegalPagesMean(v: View, pages: seq<QuerySince>)
    requires LegalPages(v, pages)
    ensures Means(StateAfter(v, pages, 0).staged, Ops(pages))
  {
    hide Means;
    StagingIsExact(v, Ops(pages));
  }

  /** An accepted batch, with what it staged. */
  lemma AcceptedBatchMeans(v: View, server: Server, n: nat, first: QuerySince, s: Staged)
    returns (pages: seq<QuerySince>, extra: seq<nat>)
    requires ValidPath(v.header.scopePath) && Collect(v, EMPTY_BATCH, server, n).0 == Received.Done(first, s)
    ensures IsBatch(v, server, n, pages, extra) && pages != [] && first == pages[0] && Means(s, Ops(pages))
    ensures Collect(v, EMPTY_BATCH, server, n).1 == n + |Transcript(pages, extra)|
  {
    hide Means, Transcript, Serves, LegalPages;
    pages, extra := AcceptedBatchIsLegal(v, server, n);
    LegalBatchIsAccepted(v, server, n, pages, extra);
  }

  /** Two servers that answer with the same operations in any order, split into any pages and
      replayed any permitted number of times, lead to the same outcome. */
  lemma PagingAndReplayDoNotMatter(
      v: View, serverA: Server, n: nat, pagesA: seq<QuerySince>, extraA: seq<nat>,
      serverB: Server, m: nat, pagesB: seq<QuerySince>, extraB: seq<nat>)
    requires IsBatch(v, serverA, n, pagesA, extraA) && IsBatch(v, serverB, m, pagesB, extraB)
    requires forall op :: op in Ops(pagesA) <==> op in Ops(pagesB)
    requires pagesA[0].targetRevision == pagesB[0].targetRevision && pagesA[0].asOf == pagesB[0].asOf
    ensures Collect(v, EMPTY_BATCH, serverA, n).0.Done? && Collect(v, EMPTY_BATCH, serverB, m).0.Done?
    ensures Finish(v, Collect(v, EMPTY_BATCH, serverA, n).0) == Finish(v, Collect(v, EMPTY_BATCH, serverB, m).0)
  {
    LegalBatchIsAccepted(v, serverA, n, pagesA, extraA);
    LegalBatchIsAccepted(v, serverB, m, pagesB, extraB);
    SameOperationsCommitAlike(v, Ops(pagesA), Ops(pagesB), pagesA[0], pagesB[0],
      StateAfter(v, pagesA, 0).staged, StateAfter(v, pagesB, 0).staged);
  }

  /** A batch that leaves the revision alone carries no operation, so returning the old view
      discards nothing. */
  lemma UnchangedDiscardsNothing(v: View, server: Server, n: nat)
    requires ValidPath(v.header.scopePath)
    requires Collect(v, EMPTY_BATCH, server, n).0.Done?
    requires Collect(v, EMPTY_BATCH, server, n).0.first.targetRevision == v.header.revision
    ensures Collect(v, EMPTY_BATCH, server, n).0.staged == NOTHING_STAGED
  {
    var pages, extra := AcceptedBatchIsLegal(v, server, n);
    assert ValidSince(pages[0]);
    assert pages[0].complete;
    assert |pages| == 1;
    assert Ops(pages) == [];
  }

  // --- how long it can take

  function Potential(b: Batch): int {
    3 * ((QUERY_DELTA_BATCH_BUDGET - b.size) / 1025) + (if b.previous.Some? then 2 - b.replays else 0) + 1
  }

  lemma TurnSpendsPotential(v: View, b: Batch, reply: Reply)
    requires b.size <= QUERY_DELTA_BATCH_BUDGET && b.replays <= 2 && Receive(v, b, reply).More?
    ensures Potential(Receive(v, b, reply).batch) < Potential(b)
  {
    var c := Receive(v, b, reply).batch;
    if c.size != b.size {
      var x, y := QUERY_DELTA_BATCH_BUDGET - c.size, QUERY_DELTA_BATCH_BUDGET - b.size;
      assert (x + 1025) / 1025 == x / 1025 + 1;
      assert (x + 1025) / 1025 <= y / 1025;
    }
  }

  lemma {:induction false} CollectIsBounded(v: View, b: Batch, server: Server, n: nat)
    requires b.size <= QUERY_DELTA_BATCH_BUDGET && b.replays <= 2
    ensures Collect(v, b, server, n).1 - n <= Potential(b)
    decreases QUERY_DELTA_BATCH_BUDGET - b.size, 2 - b.replays
  {
    var received := Receive(v, b, server(n));
    if received.More? {
      assert ReceiveProgress(v, b, server(n));
      TurnSpendsPotential(v, b, server(n));
      CollectIsBounded(v, received.batch, server, n + 1);
    }
  }

  /** Against any server at all, one since call sends fewer than 24576 since requests. */
  lemma SinceRequestsAreBounded(v: View, server: Server, n: nat)
    ensures n < Collect(v, EMPTY_BATCH, server, n).1 < n + 24576
  {
    CollectIsBounded(v, EMPTY_BATCH, server, n);
  }
}
