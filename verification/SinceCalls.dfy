/** The imperative since call: staging the pages of a batch in local maps, then committing them
    into a freshly allocated view. Every method is proved against the functions of module Delta. */
module SinceCalls {
  import opened Wrappers
  import opened Paths
  import opened Documents
  import opened Views
  import opened Delta
  import opened Snapshots

  // Staging one operation of a page.
  method StageOperation(snapshot: QuerySnapshot, s: Staged, op: QueryOperation) returns (staged: Option<Staged>)
    requires snapshot.Valid() && ValidOperation(op)
    ensures staged == Stage(snapshot.Contents(), s, op)
  {
    ghost var v := snapshot.Contents();
    var identity := Identity(op);
    if identity in s.seen { return None; }
    var seen := s.seen + {identity};
    var inView := InView(snapshot.header, op.path);
    var flow := Flow(op.path);
    var known := if flow in snapshot.flowGenerations.entries then snapshot.flowGenerations.entries[flow] else "";
    var same := op.flowGeneration.Some? && op.flowGeneration.value == known;
    match op.op
    case UpsertSummary =>
      var _, found := snapshot.Node(op.path);
      if !found || !inView { return None; }
      if op.path != "/" && !same { return None; }
      return Some(s.(seen := seen, changes := s.changes[op.path := op.node.value]));
    case InvalidateScope =>
      if !inView { return None; }
      return Some(s.(seen := seen, invalidated := s.invalidated + [op.path]));
    case RemoveSubtree =>
      if !inView || !same { return None; }
      return Some(s.(seen := seen, removed := s.removed + {op.path}));
    case _ =>
      return None;
  }

  method StageOperations(snapshot: QuerySnapshot, s: Staged, ops: seq<QueryOperation>) returns (staged: Option<Staged>)
    requires snapshot.Valid() && AllValid(ops)
    ensures staged == StageAll(snapshot.Contents(), s, ops)
  {
    staged := Some(s);
    for i := 0 to |ops|
      invariant staged.Some?
      invariant StageAll(snapshot.Contents(), s, ops) == StageAll(snapshot.Contents(), staged.value, ops[i..])
    {
      assert ops[i..][0] == ops[i] && ops[i..][1..] == ops[i + 1..];
      staged := StageOperation(snapshot, staged.value, ops[i]);
      if staged.None? { return; }
    }
    assert ops[|ops|..] == [];
  }

  // One since page: a replay of the previous page, or the next page of the batch.
  method TakePage(snapshot: QuerySnapshot, b: Batch, page: QuerySince) returns (received: Received)
    requires snapshot.Valid() && ValidSince(page)
    ensures received == ReceivePage(snapshot.Contents(), b, page)
  {
    var header := snapshot.header;
    if b.previous.Some? && page.pageIndex == b.index - 1 {
      var replays := b.replays + 1;
      if page != b.previous.value || replays > 2 { return Refused(ProtocolError); }
      return More(b.(replays := replays));
    }
    if page.sessionID != header.sessionID || page.queryID != header.queryID
       || page.fromRevision != header.revision || page.pageIndex != b.index {
      return Refused(ProtocolError);
    }
    var first := page;
    if b.first.Some? {
      first := b.first.value;
      if page.batchID != first.batchID || page.targetRevision != first.targetRevision
         || page.asOf != first.asOf || page.expiresAt != first.expiresAt {
        return Refused(ProtocolError);
      }
    }
    var batchSize := b.size + page.encodedLength + 1024;
    if batchSize > QUERY_DELTA_BATCH_BUDGET { return Refused(BUDGET_EXCEEDED); }
    var staged := StageOperations(snapshot, b.staged, page.operations);
    if staged.None? { return Refused(ProtocolError); }
    if page.complete { return Received.Done(first, staged.value); }
    return More(Batch(staged.value, Some(first), Some(page), 0, batchSize, b.index + 1));
  }

  // One answer of the server to a since request.
  method TakeAnswer(snapshot: QuerySnapshot, b: Batch, reply: Reply) returns (received: Received)
    requires snapshot.Valid()
    ensures received == Receive(snapshot.Contents(), b, reply)
  {
    var answer := QueryDocument(reply, SinceKind);
    if answer.Err? { return Refused(answer.error); }
    if answer.value.Reset? {
      var reset, header := answer.value.reset, snapshot.header;
      if reset.sessionID != header.sessionID || reset.queryID != header.queryID
         || reset.sinceRevision != header.revision {
        return Refused(ProtocolError);
      }
      return ResetTo(reset.resetScope);
    }
    received := TakePage(snapshot, b, answer.value.batchPage);
  }

  // The since loop. It ends against every server.
  method CollectBatch(snapshot: QuerySnapshot, server: Server, n: nat) returns (received: Received, next: nat)
    requires snapshot.Valid()
    ensures received == Collect(snapshot.Contents(), EMPTY_BATCH, server, n).0
    ensures next == Collect(snapshot.Contents(), EMPTY_BATCH, server, n).1
  {
    ghost var v := snapshot.Contents();
    var b := EMPTY_BATCH;
    next := n;
    while true
      invariant b.replays <= 2 && b.size <= QUERY_DELTA_BATCH_BUDGET
      invariant Collect(v, EMPTY_BATCH, server, n) == Collect(v, b, server, next)
      decreases QUERY_DELTA_BATCH_BUDGET - b.size, 2 - b.replays
    {
      received := TakeAnswer(snapshot, b, server(next));
      assert ReceiveProgress(v, b, server(next));
      next := next + 1;
      if !received.More? { return; }
      b := received.batch;
    }
  }
}
