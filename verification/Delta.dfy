/** One since call: staging a multi-page batch against a view, and committing it. */
module Delta {
  import opened Wrappers
  import opened Paths
  import opened Slices
  import opened Documents
  import opened Views

  // --- staging operations

  datatype Staged = Staged(
    changes: NodeMap, removed: set<string>, invalidated: seq<string>, seen: set<string>)

  const NOTHING_STAGED := Staged(map[], {}, [], {})

  // The operation names the generation the view knows for its flow (the empty one if it knows none).
  predicate SameGeneration(v: View, op: QueryOperation)
    requires op.path != ""
  {
    var flow := Flow(op.path);
    var known := if flow in v.flowGenerations then v.flowGenerations[flow] else "";
    op.flowGeneration.Some? && op.flowGeneration.value == known
  }

  /** What a view lets a batch do, operation by operation. */
  predicate Admissible(v: View, op: QueryOperation)
    requires ValidOperation(op)
  {
    InView(v.header, op.path) &&
    match op.op
    case UpsertSummary => Lookup(v, op.path).Some? && (op.path != "/" ==> SameGeneration(v, op))
    case InvalidateScope => true
    case RemoveSubtree => SameGeneration(v, op)
    case _ => false
  }

  function Stage(v: View, s: Staged, op: QueryOperation): Option<Staged>
    requires ValidOperation(op)
  {
    var identity := Identity(op);
    if identity in s.seen || !Admissible(v, op) then None
    else
      var s := s.(seen := s.seen + {identity});
      match op.op
      case UpsertSummary => Some(s.(changes := s.changes[op.path := op.node.value]))
      case InvalidateScope => Some(s.(invalidated := s.invalidated + [op.path]))
      case _ => Some(s.(removed := s.removed + {op.path}))
  }

  ghost predicate AllValid(ops: seq<QueryOperation>) {
    forall i | 0 <= i < |ops| :: ValidOperation(ops[i])
  }

  function StageAll(v: View, s: Staged, ops: seq<QueryOperation>): Option<Staged>
    requires AllValid(ops)
    decreases |ops|
  {
    if ops == [] then Some(s)
    else
      var next := Stage(v, s, ops[0]);
      if next.None? then None else StageAll(v, next.value, ops[1..])
  }

  // --- collecting the pages of a batch

  datatype Batch = Batch(
    staged: Staged, first: Option<QuerySince>, previous: Option<QuerySince>,
    replays: nat, size: int, index: nat)

  const EMPTY_BATCH := Batch(NOTHING_STAGED, None, None, 0, 0, 0)

  datatype Received =
    | More(batch: Batch)
    | Done(first: QuerySince, staged: Staged)
    | ResetTo(scope: string)
    | Refused(error: Error)

  predicate OwnIdentity(v: View, page: QuerySince) {
    && page.sessionID == v.header.sessionID && page.queryID == v.header.queryID
    && page.fromRevision == v.header.revision
  }

  predicate SameBatch(first: QuerySince, page: QuerySince) {
    && page.batchID == first.batchID && page.targetRevision == first.targetRevision
    && page.asOf == first.asOf && page.expiresAt == first.expiresAt
  }

  // The body of the since loop for one accepted document that is a since page.
  function ReceivePage(v: View, b: Batch, page: QuerySince): Received
    requires ValidSince(page)
  {
    if b.previous.Some? && page.pageIndex == b.index - 1 then
      if page != b.previous.value || b.replays + 1 > 2 then Refused(ProtocolError)
      else More(b.(replays := b.replays + 1))
    else if !OwnIdentity(v, page) || page.pageIndex != b.index then Refused(ProtocolError)
    else if b.first.Some? && !SameBatch(b.first.value, page) then Refused(ProtocolError)
    else
      var size := b.size + page.encodedLength + 1024;
      if size > QUERY_DELTA_BATCH_BUDGET then Refused(Failure("resource_exhausted", None))
      else
        var staged := StageAll(v, b.staged, page.operations);
        if staged.None? then Refused(ProtocolError)
        else
          var first := if b.first.None? then page else b.first.value;
          if page.complete then Done(first, staged.value)
          else More(Batch(staged.value, Some(first), Some(page), 0, size, b.index + 1))
  }

  function Receive(v: View, b: Batch, reply: Reply): Received {
    match QueryDocument(reply, SinceKind)
    case Err(error) => Refused(error)
    case Ok(Reset(reset)) =>
      if reset.sessionID != v.header.sessionID || reset.queryID != v.header.queryID
         || reset.sinceRevision != v.header.revision
      then Refused(ProtocolError)
      else ResetTo(reset.resetScope)
    case Ok(Since(page)) => ReceivePage(v, b, page)
    case Ok(_) => Refused(ProtocolError)
  }

  // The since loop: what it ends with, and the number of the first answer it did not use.
  // It ends against every server: each page costs budget, and a page is replayed at most twice.
  function Collect(v: View, b: Batch, server: Server, n: nat): (result: (Received, nat))
    ensures !result.0.More?
    ensures result.1 > n
    decreases QUERY_DELTA_BATCH_BUDGET - b.size, 2 - b.replays
  {
    var received := Receive(v, b, server(n));
    if !received.More? then (received, n + 1)
    else
      assert ReceiveProgress(v, b, server(n));
      Collect(v, received.batch, server, n + 1)
  }

  predicate ReceiveProgress(v: View, b: Batch, reply: Reply) {
    var received := Receive(v, b, reply);
    received.More? ==>
      var c := received.batch;
      || (c.size == b.size && b.replays < c.replays <= 2)
      || (c.size >= b.size + 1025 && c.size <= QUERY_DELTA_BATCH_BUDGET)
  }

  // --- committing

  datatype Committed = Same | New(view: View) | Aborted(error: Error)

  const BUDGET_EXCEEDED := Failure("resource_exhausted", None)

  // No removals: keep the shared base, extend the overlay.
  ghost function CommitOverlay(v: View, target: int, asOf: Stamp, s: Staged): Committed {
    var overrides := v.overrides + s.changes;
    var extra := MapSize(overrides);
    if v.baseBytes + extra + extra > QUERY_CLIENT_VIEW_BUDGET then Aborted(BUDGET_EXCEEDED)
    else
      New(v.(header := v.header.(revision := target, asOf := asOf),
             overrides := overrides, estimatedBytes := v.baseBytes + extra,
             staleScopes := Canonical(v.staleScopes + s.invalidated)))
  }

  function NewNode(v: View, changes: NodeMap, path: string): QueryNode {
    if path in changes then changes[path] else NodeOrZero(v, path)
  }

  function Rebuilt(v: View, changes: NodeMap, paths: seq<string>): NodeMap {
    map path | path in paths :: NewNode(v, changes, path)
  }

  function OrderSize(v: View, changes: NodeMap, paths: seq<string>): nat {
    if paths == [] then 0
    else OrderSize(v, changes, paths[..|paths| - 1]) + NodeSize(NewNode(v, changes, paths[|paths| - 1]))
  }

  // A surviving change conflicts with nothing; a change of a removed node does.
  predicate Conflicts(s: Staged, paths: seq<string>) {
    exists path | path in paths :: path in s.changes && Gone(s.removed, path)
  }

  // With removals: build everything anew from the survivors, in order.
  function CommitRebuild(v: View, target: int, asOf: Stamp, s: Staged): Committed {
    if v.estimatedBytes * 2 > QUERY_CLIENT_VIEW_BUDGET then Aborted(BUDGET_EXCEEDED)
    else if Conflicts(s, v.order) then Aborted(ProtocolError)
    else
      var order := Survivors(v.order, s.removed);
      var bytes := 1024 + OrderSize(v, s.changes, order);
      if order == [] || order[0] != v.header.scopePath then Aborted(ProtocolError)
      else if v.estimatedBytes + bytes > QUERY_CLIENT_VIEW_BUDGET then Aborted(BUDGET_EXCEEDED)
      else
        var nodes := Rebuilt(v, s.changes, order);
        New(View(
          v.header.(revision := target, asOf := asOf), nodes, map[], bytes, bytes, order,
          map flow | flow in v.flowGenerations && flow in nodes :: v.flowGenerations[flow],
          Survivors(Canonical(v.staleScopes + s.invalidated), s.removed)))
  }

  ghost function Commit(v: View, first: QuerySince, s: Staged): Committed {
    if first.targetRevision == v.header.revision then Same
    else if s.removed == {} then CommitOverlay(v, first.targetRevision, first.asOf, s)
    else CommitRebuild(v, first.targetRevision, first.asOf, s)
  }

  // --- the whole call, on the current view

  // Rejected and Unchanged publish nothing; Published and Marked publish the view they carry.
  datatype Outcome =
    | Rejected(error: Error)
    | Unchanged
    | Published(view: View)
    | Marked(view: View, error: Error)

  // The guards on the view, which fail without marking it.
  function GuardError(v: View): Option<Error> {
    if v.header.revision < 1 then Some(Failure("unsupported_capability", None))
    else if IsStale(v, v.header.scopePath) then Some(Failure("stale_identity", None))
    else None
  }

  // The capabilities request that opens every since call.
  function CapabilityError(reply: Reply): Option<Error> {
    match QueryDocument(reply, CapabilitiesKind)
    case Err(error) => Some(error)
    case Ok(document) =>
      if document.Capabilities? && document.since then None else Some(Failure("unsupported_capability", None))
  }

  ghost function SinceOutcome(v: View, server: Server, n: nat): (Outcome, nat) {
    if GuardError(v).Some? then (Rejected(GuardError(v).value), n)
    else if CapabilityError(server(n)).Some?
    then (Marked(MarkStale(v, v.header.scopePath), CapabilityError(server(n)).value), n + 1)
    else
      var (received, next) := Collect(v, EMPTY_BATCH, server, n + 1);
      (Finish(v, received), next)
  }

  ghost function Finish(v: View, received: Received): Outcome
    requires !received.More?
  {
    var root := MarkStale(v, v.header.scopePath);
    match received
    case Refused(error) => Marked(root, error)
    case ResetTo(scope) => Marked(MarkStale(v, scope), Failure("reset_required", Some(scope)))
    case Done(first, staged) =>
      match Commit(v, first, staged)
      case Same => Unchanged
      case New(view) => Published(view)
      case Aborted(error) => Marked(root, error)
  }
}
