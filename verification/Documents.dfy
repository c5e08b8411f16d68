/** Decoded QueryDocument v1 answers, the checks the decoder makes on them, and the one place
    where an answer is turned into a document of the expected kind or an error. */
module Documents {
  import opened Wrappers
  import opened Text
  import opened Paths

  // A time stamp, and the nanosecond it names if the library reads it as a UTC time.
  datatype Stamp = Stamp(text: string, instant: Option<int>)

  const NO_STAMP := Stamp("", None)

  datatype QueryNode = QueryNode(
    path: string, nodeKind: string, typeID: string, status: string, suspended: bool,
    attemptID: Option<string>)

  datatype QueryPage = QueryPage(
    sessionID: string, queryID: string, snapshotID: string, baseRevision: Option<int>,
    asOf: Stamp, expiresAt: Stamp, pageIndex: int, totalNodes: Option<int>,
    complete: bool, nextCursor: Option<string>, rootName: string,
    flowGenerations: map<string, string>, nodes: seq<QueryNode>)

  datatype OpKind = UpsertSummary | ReplaceGroup | SetField | ClearField | RemoveSubtree | InvalidateScope {
    function Name(): string {
      match this
      case UpsertSummary => "upsert_summary"
      case ReplaceGroup => "replace_group"
      case SetField => "set_field"
      case ClearField => "clear_field"
      case RemoveSubtree => "remove_subtree"
      case InvalidateScope => "invalidate_scope"
    }
  }

  // rest stands for the fields of the detail operations (attempt id, group, pointer, value).
  datatype QueryOperation = QueryOperation(
    op: OpKind, path: string, flowGeneration: Option<string>, node: Option<QueryNode>,
    reason: Option<string>, rest: Option<string>)

  // encodedLength is the length of the page's JSON encoding.
  datatype QuerySince = QuerySince(
    sessionID: string, queryID: string, batchID: string, fromRevision: int, targetRevision: int,
    asOf: Stamp, expiresAt: Stamp, pageIndex: int, complete: bool, nextCursor: Option<string>,
    isUnchanged: bool, operations: seq<QueryOperation>, encodedLength: int)

  datatype QueryReset = QueryReset(
    sessionID: string, queryID: string, sinceRevision: int, resetScope: string, reason: string)

  datatype Document =
    | Capabilities(since: bool)
    | Page(page: QueryPage)
    | Since(batchPage: QuerySince)
    | Reset(reset: QueryReset)
    | Failed(code: string, failedScope: Option<string>)
    | OtherKind

  datatype Kind = CapabilitiesKind | PageKind | SinceKind

  // What one use of the transport yields: the connection could not be opened, the request was too
  // large to be sent, the call failed after its retries, or some document arrived.
  datatype Reply = NotOpened | TooLarge | Unanswered | Answered(document: Document)

  // An arbitrary server: its i-th answer, whatever the i-th request was.
  type Server = nat -> Reply

  datatype Error =
    | RequestError
    | ProtocolError
    | CallError
    | Failure(code: string, resetScope: Option<string>)

  const QUERY_MAX_PAGE_NODES := 2048
  const QUERY_CLIENT_VIEW_BUDGET := 128 * 1024 * 1024
  const QUERY_DELTA_BATCH_BUDGET := 8 * 1024 * 1024

  const QUERY_KINDS: set<string> := {"bunch", "flow", "container", "task"}
  const QUERY_STATUSES: set<string> := {"unknown", "queued", "submitted", "active", "complete", "aborted"}
  const QUERY_RESET_REASONS: set<string> :=
    {"history_expired", "identity_changed", "scope_changed", "structure_changed", "budget_exceeded",
     "session_changed"}
  const QUERY_INVALIDATE_REASONS: set<string> := {"structure_changed", "inheritance_changed", "identity_changed"}
  const QUERY_ERROR_CODES: set<string> :=
    {"invalid_request", "unsupported_version", "unsupported_capability", "permission_denied",
     "stale_identity", "snapshot_expired", "resource_exhausted", "field_too_large", "internal_error"}

  predicate ValidNode(node: QueryNode) {
    && ValidPath(node.path)
    && node.nodeKind in QUERY_KINDS && node.status in QUERY_STATUSES && node.typeID != ""
    && (node.attemptID.Some? ==> node.nodeKind == "task" && node.attemptID.value != "")
  }

  predicate ValidCursor(complete: bool, nextCursor: Option<string>, items: nat) {
    && complete == nextCursor.None?
    && (!complete ==> nextCursor.Some? && nextCursor.value != "" && items > 0)
  }

  // A non-empty generation is known for the flow of every path but the root.
  predicate HasFlow(generations: map<string, string>, path: string) {
    |path| > 1 ==> Flow(path) in generations && generations[Flow(path)] != ""
  }

  predicate ValidPage(page: QueryPage) {
    && page.sessionID != "" && page.queryID != "" && page.snapshotID != ""
    && page.asOf.instant.Some? && page.expiresAt.instant.Some?
    && (page.baseRevision.Some? ==> page.baseRevision.value >= 1)
    && page.pageIndex >= 0
    && (page.totalNodes.Some? ==> page.totalNodes.value >= 0)
    && |page.nodes| <= QUERY_MAX_PAGE_NODES
    && ValidCursor(page.complete, page.nextCursor, |page.nodes|)
    && (forall path | path in page.flowGenerations ::
          ValidPath(path) && Count(path, '/') == 1 && page.flowGenerations[path] != "")
    && (forall i | 0 <= i < |page.nodes| ::
          ValidNode(page.nodes[i]) && HasFlow(page.flowGenerations, page.nodes[i].path))
    && (forall i, j | 0 <= i < j < |page.nodes| :: page.nodes[i].path != page.nodes[j].path)
  }

  // queryOperationIdentity
  predicate ValidOperationIdentity(op: QueryOperation) {
    && ValidPath(op.path)
    && if op.path == "/" then op.flowGeneration.None?
       else op.flowGeneration.Some? && op.flowGeneration.value != ""
  }

  // No field but those every operation has.
  predicate Bare(op: QueryOperation) {
    op.node.None? && op.reason.None? && op.rest.None?
  }

  // validQueryOperation: each operation has exactly its own fields. The value shapes of the detail
  // operations are not constrained here.
  predicate ValidOperation(op: QueryOperation) {
    match op.op
    case UpsertSummary =>
      && ValidOperationIdentity(op) && Bare(op.(node := None))
      && op.node.Some? && ValidNode(op.node.value) && op.node.value.path == op.path
    case RemoveSubtree => ValidOperationIdentity(op) && op.path != "/" && Bare(op)
    case InvalidateScope =>
      && ValidPath(op.path) && op.flowGeneration.None? && Bare(op.(reason := None))
      && op.reason.Some? && op.reason.value in QUERY_INVALIDATE_REASONS
    case _ => ValidOperationIdentity(op) && Bare(op.(rest := None))
  }

  predicate ValidSince(page: QuerySince) {
    && page.sessionID != "" && page.queryID != "" && page.batchID != ""
    && page.asOf.instant.Some? && page.expiresAt.instant.Some?
    && page.expiresAt.instant.value > page.asOf.instant.value
    && page.fromRevision >= 1 && page.targetRevision >= page.fromRevision && page.pageIndex >= 0
    && ValidCursor(page.complete, page.nextCursor, |page.operations|)
    && page.isUnchanged == (page.targetRevision == page.fromRevision)
    && (page.isUnchanged ==> page.operations == [] && page.pageIndex == 0 && page.complete)
    && (forall i | 0 <= i < |page.operations| :: ValidOperation(page.operations[i]))
    && page.encodedLength > 0
  }

  predicate ValidReset(reset: QueryReset) {
    && reset.sessionID != "" && reset.queryID != "" && reset.sinceRevision >= 1
    && ValidPath(reset.resetScope) && reset.reason in QUERY_RESET_REASONS
  }

  // DecodeQueryV1 on an answer
  predicate Decodes(document: Document) {
    match document
    case Page(page) => ValidPage(page)
    case Since(page) => ValidSince(page)
    case Reset(reset) => ValidReset(reset)
    case Failed(code, scope) => code in QUERY_ERROR_CODES && (scope.Some? ==> ValidPath(scope.value))
    case Capabilities(_) => true
    case OtherKind => true
  }

  // queryDocument: the tail of every request
  function QueryDocument(reply: Reply, expected: Kind): Result<Document, Error> {
    if reply.TooLarge? then Err(RequestError)
    else if !reply.Answered? then Err(CallError)
    else if !Decodes(reply.document) then Err(ProtocolError)
    else
      match reply.document
      case Failed(code, scope) => Err(Failure(code, scope))
      case Reset(_) => if expected.SinceKind? then Ok(reply.document) else Err(ProtocolError)
      case Capabilities(_) => if expected.CapabilitiesKind? then Ok(reply.document) else Err(ProtocolError)
      case Page(_) => if expected.PageKind? then Ok(reply.document) else Err(ProtocolError)
      case Since(_) => if expected.SinceKind? then Ok(reply.document) else Err(ProtocolError)
      case OtherKind => Err(ProtocolError)
  }

  // The name and the path of an operation, joined by a NUL byte.
  function Identity(op: QueryOperation): string {
    op.op.Name() + ['\0'] + op.path
  }

  lemma NamesHoldNoNul(kind: OpKind)
    ensures !Contains(kind.Name(), '\0')
  {
  }

  lemma NamesDiffer(a: OpKind, b: OpKind)
    requires a.Name() == b.Name()
    ensures a == b
  {
    assert a.Name()[0] == b.Name()[0] && |a.Name()| == |b.Name()|;
  }

  lemma NulCut(a: string, restA: string, b: string, restB: string)
    requires !Contains(a, '\0') && !Contains(b, '\0')
    requires a + ['\0'] + restA == b + ['\0'] + restB
    ensures a == b && restA == restB
  {
    var left, right := a + ['\0'] + restA, b + ['\0'] + restB;
    assert left[|a|] == '\0' && right[|b|] == '\0';
    assert forall i | 0 <= i < |a| :: left[i] == a[i];
    assert forall i | 0 <= i < |b| :: right[i] == b[i];
    assert |a| == |b|;
    assert a == left[..|a|] && b == right[..|b|];
    assert restA == left[|a| + 1..] && restB == right[|b| + 1..];
  }

  /** The duplicate key of the batch tells operations apart exactly by name and path. */
  lemma IdentityIsInjective(a: QueryOperation, b: QueryOperation)
    ensures Identity(a) == Identity(b) <==> a.op == b.op && a.path == b.path
  {
    if Identity(a) == Identity(b) {
      NamesHoldNoNul(a.op);
      NamesHoldNoNul(b.op);
      NulCut(a.op.Name(), a.path, b.op.Name(), b.path);
      NamesDiffer(a.op, b.op);
    }
  }
}
