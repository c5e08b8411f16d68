# A verified model of the takler client's query cache

The Go client of takler keeps one *published view* of a scheduler's node tree. A view is rebuilt from
server pages, brought forward by multi-page delta batches, or republished with one more stale scope;
earlier views stay in the hands of callers and share maps and slices with later ones. This project
models that cache, the string foundations under it, the retry window of every call, the JSON string
scanner, the field pointers and the blob assembly, and proves what they promise.

How the model is built:

- **Server and clock.** A server is an arbitrary stream `nat -> Reply`: its i-th answer, whatever was
  asked. A reply is a connection that could not be opened, a request that is too large to be sent, a call
  that failed after its retries, or any document at all; the decoder's checks on documents are predicates
  (`Documents.Decodes`), applied to every answer. Nothing else is known about the server, so the results hold against any server.
- **Strings** are byte strings, one `char` for one byte, as in Go.
- **Views** are values (`Views.View`) in the specification and heap objects
  (`Snapshots.QuerySnapshot`, with shared `Table`s, lists and arrays) in the imperative part. The class
  `Client.TaklerServiceClient` holds the current object and a ghost `history` of everything it ever
  published; its methods are proved against the step functions of `Runs` and `Sync`.
- **Concurrency.** Every operation on the cache holds the client's mutex, so any interleaving of callers
  is a sequence of steps: a run is an arbitrary list of rebuilds and since calls, on the current or on
  another snapshot. A view's identity is its position in the history; the last one is current.

The modules, bottom up: `Text`, `Paths`, `Slices` (strings, the segment tree, sorted lists); `Documents`,
`Views` (decoded answers, the view and its invariant); `Delta`, `Batches`, `Paging`, `Commits`,
`CommitInvariants` (one since call); `Assembly`, `AssemblyProperties`, `Listings` (a rebuild); `Runs`,
`Publications`, `Failures`, `Errors`, `Memory`, `Coverage`, `DeepScopes`, `Agreement`, `Sync`, `SyncSteps`,
`SyncAgreement` (whole runs); `Snapshots`, `SinceCalls`, `CommitCalls`, `PageCalls`, `Client` (the
imperative client); `Retry`, `Wire`, `FieldPointers`, `Blobs`, `BlobPointers`.

Properties that turned out not to hold, and exactly when they do:

- *Every node of a published view has a flow generation.* True for views scoped at `/` or at a flow. Under
  a deeper scope the filter at common/query_since.go:243-247 drops every generation with the first removal
  batch. `DeepScopes.RemovalForgetsTheFlow` gives a server and two calls that lead there,
  `CommitInvariants.CoverageIsKeptExactly` says for every commit, and `Coverage.CurrentIsCoveredExactly`
  for every run, when the coverage is kept, and
  `CommitInvariants.DeepScopeRefusesLater` that a view without generations refuses every upsert and removal.
- *Distinct blob pointers name distinct slots.* The client compares pointers as strings, but array indices
  may have leading zeros (`BlobPointers.LeadingZerosNameOneSlot`) and a tilde that starts no escape stands
  for itself (`BlobPointers.StrayTildesNameOneSlot`). Two accepted pointers name one slot exactly when their
  canonical forms are equal (`BlobPointers.SameSlotExactly`); for pointers without stray tildes and leading
  zeros the string comparison is enough (`BlobPointers.PlainPointersDiffer`).

Where the comments and the code disagree, the model follows the code: common/retry.go:37-43 and 84-91 say
that child commands keep retrying for a day, but common/call.go:183-187 gives every command that is not
read-only a zero window, so they are attempted exactly once (`Retry.RetriedExactlyWhen`).

## Model

| member | source | states |
|---|---|---|
| Paths.ValidSegments | common/query_v1.go:391-409 | A path the decoder accepts is the rendering of its list of segments, each non-empty, not `.` or `..`, free of slashes and control bytes; only `/` has none |
| Paths.RenderedIsValid | common/query_v1.go:391-409 | Conversely every list of such segments renders to an accepted path with exactly those segments: paths and the segment tree are in bijection |
| Paths.CoversIsPrefix | common/query_since.go:51-60 | For all accepted paths, "equal or has prefix TrimSuffix(scope)+/" holds iff the segments of the scope are a prefix of the segments of the path |
| Paths.CoversRemovedIsCovers | common/query_since.go:217-221 | The other spelling of the prefix test, used for removed roots, is the same relation for every root but `/`, which is never removed |
| Paths.CoversTransitive | common/query_client.go:75-85 | The raw prefix test is transitive on accepted paths |
| Paths.CoversAntisymmetric | common/query_client.go:75-85 | and antisymmetric, so it is a partial order |
| Paths.DepthIsSegmentDistance | common/query_client.go:274-283 | The two slash-count depths (rebuild and delta), each with its own root special case, both equal the number of segments below the scope |
| Paths.ParentDropsLast | common/query_client.go:284-288 | Cutting at the last slash, with the empty string read as `/`, gives the accepted path without its last segment |
| Paths.ParentIsBetween | common/query_client.go:284-292 | Whatever strictly covers a path covers its parent, which covers the path |
| Paths.FlowIsFirst | common/query_since.go:149-154 | The flow path taken from Split is the accepted path of the first segment |
| Slices.CanonicalIsStrict | common/query_since.go:33-49 | Sorting then compacting keeps exactly the elements and yields a strictly ascending list |
| Slices.StrictListsAgree | common/query_since.go:33-49 | A strictly ascending list is determined by its elements, so the published stale list does not depend on the order of marks |
| Slices.LeAtTheFirstDifference | common/query_since.go:33 | The order by which stale lists are sorted is that of the first byte that differs, and a prefix comes first |
| Slices.CompactStrings | common/query_since.go:38-49 | The in-place compaction leaves exactly the run-compacted list at the front of the same backing array |
| Slices.UnderRemoved | common/query_since.go:217-222 | The loop over the removed roots, in any order and with its early exit, decides whether some root covers the path |
| Slices.DropRemoved | common/query_since.go:252-267 | The in-place filter leaves exactly the scopes not under a removed root, in order, at the front of the same array |
| Slices.SurvivorsKeepOrder | common/query_since.go:215-236 | The survivors of a removal stand in the order in which they stood |
| Documents.IdentityIsInjective | common/query_since.go:139 | The duplicate key `op NUL path` is equal for two operations iff their names and paths are |
| Views.MarkAddsOneScope | common/query_since.go:27-36 | A stale mark keeps the view invariant, changes nothing but the stale list, adds exactly the marked scope to it, and makes stale exactly what was stale or is covered by that scope |
| Views.AncestorsPresent | common/query_client.go:284-292 | In every view in order, every path between the scope and a node of the view is itself a node |
| Views.MapSizeWithout | common/query_since.go:198-201 | The byte total of a node map does not depend on the order of iteration |
| Views.InViewExactly | common/query_since.go:51-60 | The raw test puts a path in the view iff its segments extend those of the scope by at most the depth |
| Views.NodeSizeIsItsTexts | common/query_since.go:62-68 | A node counts 512 bytes and the bytes of its five texts |
| Batches.AdmissibleExactly | common/query_since.go:144-172 | The client's tests admit an operation iff its path's segments extend the scope's by at most the depth, an upsert names a node of the view, every upsert below `/` and every removal carries the very generation the view knows for the flow of its path, and it is no detail operation |
| Batches.StagingIsExact | common/query_since.go:138-173 | A list of decoded operations is staged iff no name-path pair repeats and the view allows each in that sense, and then the staged maps hold exactly the upserted nodes, removed roots and invalidated scopes |
| Batches.SameOperationsCommitAlike | common/query_since.go:138-271 | Two batches with the same set of operations, in any order, commit to the same result |
| Paging.ReceiveIsExact | common/query_since.go:116-179 | After any legal pages, an answer ends the batch iff it is a legal final page, continues it iff it is a legal open page or an identical replay within the limit, and the new state is that of the extended page list |
| Paging.AcceptedBatchIsLegal | common/query_since.go:104-180 | Whenever the since loop accepts, the answers it used were the in-order pages of one legal batch, each non-final page replayed identically at most twice, and exactly their operations are staged |
| Paging.LegalBatchIsAccepted | common/query_since.go:104-180 | Every such transcript is accepted, however it is paged and replayed, and the staged maps mean exactly its operations |
| Paging.PagingAndReplayDoNotMatter | common/query_since.go:104-271 | Two servers sending the same operations in any order, any splitting and any permitted number of replays lead to the same outcome of the call |
| Paging.UnchangedDiscardsNothing | common/query_since.go:184-186 | An accepted batch that leaves the revision alone staged nothing, so returning the old view loses no operation |
| Paging.CollectIsBounded | common/query_since.go:104-180 | From any state of the loop the number of further answers is at most the budget left over 1025, times three, plus the replays left and one |
| Paging.SinceRequestsAreBounded | common/query_since.go:104-180 | One call sends fewer than 24576 since requests, whatever the server answers |
| Commits.AcceptedIsStagedOk | common/query_since.go:144-170 | An accepted batch only changes nodes the view has, only removes valid roots inside it (never `/`), only invalidates scopes inside it, and carries nodes under their own path |
| Commits.CommitRefinesMap | common/query_since.go:187-249 | Both commit paths turn the map the view stands for into that map without the removed subtrees, updated by the upserts, and filter the order the same way; the header changes only in revision and time |
| Commits.OrderSizeIsMapSize | common/query_since.go:214-236 | The size accumulated along the surviving order is the total size of the rebuilt map |
| Commits.CommitsExactly | common/query_since.go:190-242 | A batch that moves the revision commits iff it fits the memory budget, updates nothing it removes and leaves the scope root |
| CommitInvariants.SurvivorsKeepParents | common/query_since.go:215-236 | Dropping removed subtrees from an order with parents first leaves an order with parents first |
| CommitInvariants.CommitKeepsInvariant | common/query_since.go:187-270 | Every committed view satisfies the full view invariant: order without repetition, equal to the key set, root first, parents first; nodes valid, in scope, in depth, under their own key; overlay within the base; bytes conserved and within budget; stale list strictly sorted |
| CommitInvariants.CommitStaysInBudget | common/query_since.go:198-248 | A committed view's byte count is 1024 plus its base and overlay sizes, and it fits the budget together with the view it replaces: as two separate views after a removal, as the shared base and both overlays otherwise |
| CommitInvariants.StalenessIsExact | common/query_since.go:250-268 | A path the batch does not remove is stale afterwards iff it was stale before or an invalidation of the batch covers it: dropping stale scopes under removed roots loses nothing |
| CommitInvariants.CommittedStaleScopes | common/query_since.go:250-268 | A committed view's stale list holds exactly the old scopes and the invalidated ones that no removed root covers |
| CommitInvariants.CommittedLists | common/query_since.go:243-268 | A committed view keeps the scope, and the generation of a flow iff nothing was removed or the flow is still a node |
| CommitInvariants.CoverageIsKept | common/query_since.go:243-247 | In a view scoped at `/` or at a flow every node keeps a non-empty generation for its flow through any commit |
| CommitInvariants.DeepScopeLosesGenerations | common/query_since.go:243-247 | Under a deeper scope a removal batch leaves no generation at all |
| CommitInvariants.CoverageIsKeptExactly | common/query_since.go:190-249 | A committed batch keeps the generation coverage of a view iff the view's scope is `/` or a flow, or the batch removes nothing |
| CommitInvariants.DeepScopeRefusesLater | common/query_since.go:149-168 | After such a loss the view admits no upsert and no removal any more |
| Assembly.TurnCosts | common/query_client.go:295-306 | A page that does not end the loop costs at least 512 bytes and stays within the budget |
| Assembly.SelectionExactly | common/query_client.go:213-229 | The checks on a selection pass iff not both path and flow are given, the path is valid, the flow name is one segment and the depth is not negative; the scope is then the named flow, the given path, or `/` |
| AssemblyProperties.AssembledFrom | common/query_client.go:237-313 | A rebuild that succeeds used exactly the answers that are the valid pages of one listing of which only the last is complete, and built what adding them in order builds |
| AssemblyProperties.ListingIsAssembled | common/query_client.go:237-313 | Conversely every such listing whose pages can be added is what the rebuild ends with, using exactly its pages |
| AssemblyProperties.RebuildListsItsPages | common/query_client.go:267-302 | The published order and nodes are exactly the nodes of those pages, in order, however they are split into pages |
| AssemblyProperties.PageRequestsAreBounded | common/query_client.go:237-307 | From any draft the loop sends at most one request per 512 bytes of budget left, plus one |
| Listings.AddNodeIsExact | common/query_client.go:267-302 | After any nodes in tree order, the next node is added iff it continues the tree order (new, in the selection by segments, parent already listed) within the budget, and then the draft is that of the longer list |
| Listings.AddPageIsExact | common/query_client.go:242-302 | After any open listing, the next page is added iff it continues it: next index, same snapshot, generations and node counts agreeing with every earlier page, nodes in tree order and within budget |
| Listings.RebuildIsExact | common/query_client.go:208-317 | A rebuild succeeds iff the selection can be asked for and the server answers with the pages of a legal listing, defined without the loop; it then publishes the view that listing stands for and uses exactly its pages; it fails before using an answer, with a request error, iff the selection cannot be asked for |
| Listings.SplittingDoesNotMatter | common/query_client.go:237-307 | Two legal listings of one snapshot with the same nodes in order and the same generations, split into pages in any way, are rebuilt into the same view |
| AssemblyProperties.RebuildIsFresh | common/query_client.go:208-317 | Against any server a successful rebuild publishes a view in order for the selection, with no overlay and no stale scope, every node's flow generation known, fitting the budget together with the old view, after at most QueryClientViewBudget/512 page requests |
| DeepScopes.RemovalForgetsTheFlow | common/query_since.go:243-247 | A server that answers with one page of `/f/c`, its capabilities and one removal batch: a client that rebuilds and then reads since publishes a view that knows the generation of its nodes, and then one that knows none |
| Publications.SincePublishesExactly | common/query_since.go:70-271 | A since call publishes iff the view has a revision, its root is not stale, the server announces since, and its answers are a legal batch that moves the revision and whose operations can be committed; it then publishes what committing those operations gives and uses exactly those answers |
| Publications.SinceKeepsExactly | common/query_since.go:181-186 | A since call succeeds without publishing iff the view is readable and the answers are a legal batch that leaves the revision alone |
| Publications.SinceStepIsExact | common/query_since.go:15-25 | As a step: a since call succeeds iff its answers are a batch to publish or one that leaves the revision alone; it appends the committed view, or leaves the history, and uses exactly those answers; a call that marks appends the marked view and reports its error |
| Publications.RebuildStepIsExact | common/query_client.go:196-206 | As a step: a rebuild appends the view of the legal listing it was sent and uses exactly its pages, or leaves the history as it is and reports its error |
| Runs.PublishedIsCommitted | common/query_since.go:181-270 | Whatever a since call publishes is the commit of a collected legal batch for this view's session, query and revision |
| Failures.ResetsExactly | common/query_since.go:109-115 | The since loop ends with a reset iff, after open pages of a legal batch and their replays, the server answers with a valid reset that names this view's session, query and revision; the scope is that answer's |
| Failures.OutcomeFailsExactly | common/query_since.go:70-115 | A call on the current view fails without a mark iff a guard fails, with the code of that guard; otherwise a reset by the server marks exactly the scope it names and is reported as such, and every other failure marks the root and is reported as anything but a reset |
| Failures.FailureIsAllOrNothing | common/query_since.go:15-115 | A failing since call leaves the history as it is iff the connection could not be opened, the snapshot is not current or a guard fails, each with its own error; every other failure appends the current view with exactly one more stale scope: the one the server reset the call to, or else the root |
| Errors.SinceErrorIsExact | common/query_since.go:85-242 | The error of a call that marks is that of the capabilities answer, of the reset, of the answer at which the batch stopped (the server's own failure with code and scope, `resource_exhausted` iff the page due next exceeds the batch budget, else a protocol error), or of a whole batch that could not be committed |
| Errors.AbortIsExact | common/query_since.go:198-242 | A commit fails with a protocol error iff the batch removes what it updates or the root and twice the old view fits the budget, and else with `resource_exhausted` |
| Errors.RebuildErrorIsExact | common/query_client.go:237-313 | The error of a rebuild that can be asked for is that of the first answer that does not continue the listing: the server's own failure, `resource_exhausted` iff a node in tree order exceeds the budget, else a protocol error |
| Runs.RebuildStepIsOk | common/query_client.go:196-316 | A failed rebuild publishes nothing; a successful one appends exactly one fresh view and keeps all before |
| Runs.RunKeepsEveryView | common/query_since.go:70-271 | In every run of rebuilds and since calls against every server, every published view satisfies the view invariant and no call changes a view published before it |
| Runs.RootStaleIsAbsorbing | common/query_since.go:77-79 | While the current view's root is stale, no sequence of since calls on any snapshot publishes anything |
| Runs.StalenessIsSticky | common/query_since.go:250-270 | Over any run without a rebuild, a path still in the current view was in the earlier one, and is stale if it was stale |
| Runs.RunKnowsFlows | common/query_client.go:261-266 | In every run every published view scoped at `/` or at a flow knows a non-empty generation for the flow of each of its nodes |
| Coverage.CurrentIsCoveredExactly | common/query_since.go:243-247 | After any run the current view knows the generation of each of its nodes iff its scope is `/` or a flow, or no batch committed since its last rebuild removed anything |
| Runs.GenerationsAreFixed | common/query_since.go:243-247 | Over any run without a rebuild no flow's generation changes and no flow is added |
| Runs.RunIsBounded | common/query_since.go:104-180 | Every run ends, using at most QueryClientViewBudget/512 answers per call |
| Memory.RunFitsTheBudget | common/query_client.go:299-301 | In every run, each published view fits the memory budget together with the view it replaces, a shared base counted once |
| Agreement.DeltaKeepsAgreement | common/query_since.go:187-270 | If a view agrees with the server's old tree on every non-stale path in scope and depth, and the batch is honest about the paths in scope and depth, the committed view agrees with the new tree, whatever changed elsewhere |
| Agreement.RebuildAgrees | common/query_client.go:237-316 | If the listing is the server's tree cut to the selection, the rebuilt view agrees with that tree |
| Agreement.RunAgrees | common/query_since.go:138-270 | Over every run against a server whose listings and batches are honest about the view's selection, every view ever published agrees with the server's tree at the view's own revision: a non-stale path in scope and depth is in the view iff it is in the tree, with the same node |
| Sync.PollableIsNotRejected | common/query_since.go:71-79 | A current view without stale scopes is rejected by the guards iff it has no revision |
| Sync.SyncEndsFresh | common/query_since.go:275-302 | At every loop head the view is the current one and has no stale scope; on success there were exactly `polls` turns and the result is a current view without stale scopes; at most polls+1 rebuilds happen; bad arguments touch nothing |
| SyncSteps.SyncIsItsPolls | common/query_since.go:275-302 | Poll by poll: a since call that fails with anything but a reset ends the sync with exactly its error, history and next answer and no rebuild; a reset, or a stale scope left behind, is followed by a rebuild; otherwise the next poll goes on from there; there is one rebuild and one more for each poll that asks for it |
| SyncAgreement.SyncIsRun | common/query_since.go:275-302 | A sync does exactly what the run of its rebuilds and since calls does, so every theorem about runs is one about syncs |
| SyncAgreement.SyncReturnsTheTree | common/query_since.go:275-302 | Against a server honest in each rebuild and each published batch, a sync that succeeds with a revision returns a view of the selection that is exactly the server's tree at that revision, cut to the scope and depth |
| Snapshots.QuerySnapshot.Node | common/query_client.go:52-65 | Returns the node of the simple map the view stands for, and whether there is one |
| Snapshots.QuerySnapshot.Stale | common/query_client.go:75-85 | True iff some stale scope covers the path |
| Snapshots.QuerySnapshot.Paths | common/query_client.go:87-92 | A fresh copy of the order |
| Snapshots.QuerySnapshot.StaleScopes | common/query_client.go:68-73 | A fresh copy of the stale list |
| Snapshots.SortedScopes | common/query_since.go:32-34 | A fresh array holding the strictly sorted union of the old scopes and the new ones; the old array is untouched |
| Snapshots.TotalSize | common/query_since.go:198-201 | The loop over a map in any order computes its total byte size |
| SinceCalls.StageOperation | common/query_since.go:138-172 | One operation against the live snapshot object is staged or refused as the specification says |
| SinceCalls.TakePage | common/query_since.go:116-179 | Replay test, identity tests, batch budget and staging of one page, in that order, give the specified loop state |
| SinceCalls.CollectBatch | common/query_since.go:104-180 | The loop, which ends against every server, returns the specified result and number of answers used |
| CommitCalls.Overlay | common/query_since.go:191-197 | Copying entry by entry in any order builds a fresh map: the old overlay updated by the changes |
| CommitCalls.CommitShared | common/query_since.go:190-205 | The commit without removals: a fresh object sharing the old base map and order, or the budget error |
| CommitCalls.CopySurvivors | common/query_since.go:214-236 | The pass over the old order reports a conflict iff a removed path is also changed, and otherwise fills the new order, map and byte count with the survivors |
| CommitCalls.KeepGenerations | common/query_since.go:243-247 | Keeps exactly the generations of flows that are still nodes of the view |
| CommitCalls.CommitAnew | common/query_since.go:206-249 | The commit with removals: a fresh object with the specified contents, or the specified error |
| PageCalls.AddPageNode | common/query_client.go:267-302 | Adds one node to the unpublished snapshot in place, or fails with the specified error |
| PageCalls.AddGenerations | common/query_client.go:261-266 | In any iteration order, succeeds iff no known generation would change, and then joins the two maps |
| PageCalls.TakePage | common/query_client.go:242-302 | One page, in place: page order, snapshot identity, node count, generations, then nodes |
| PageCalls.AssemblePages | common/query_client.go:237-313 | The page loop, which ends against every server, fills the draft as specified |
| PageCalls.BuildSnapshot | common/query_client.go:208-316 | Returns a fresh snapshot object with exactly the specified contents, or the specified error |
| Client.TaklerServiceClient.MarkQueryStale | common/query_since.go:27-36 | Does nothing on a snapshot that is not current; otherwise publishes a fresh object that shares the old maps and has one more stale scope |
| Client.TaklerServiceClient.CommitBatch | common/query_since.go:187-268 | Chooses the commit path and delivers a fresh object or the error, writing to nothing that existed |
| Client.TaklerServiceClient.FinishBatch | common/query_since.go:181-270 | An unchanged revision keeps the identical object; a commit is published; a failed commit marks the root stale |
| Client.TaklerServiceClient.ReadCurrentSince | common/query_since.go:70-271 | Guards, capabilities request, loop and commit on the current view do exactly the specified step |
| Client.TaklerServiceClient.ReadQuerySince | common/query_since.go:15-25 | The history, the error and the answers used are those of the since step; the identical object stays current iff nothing was published; every snapshot that existed before still answers what it answered |
| Client.TaklerServiceClient.ReadQuerySnapshot | common/query_client.go:196-206 | The same for a rebuild: a failed one leaves the identical object current, and every earlier snapshot is unchanged |
| Client.TaklerServiceClient.PollOnce | common/query_since.go:283-300 | One turn of the sync loop is one specified poll |
| Client.TaklerServiceClient.PollMany | common/query_since.go:283-300 | At every turn of the loop the view is the current one, and the loop does what the specified polls do |
| Client.TaklerServiceClient.SyncQuery | common/query_since.go:275-302 | Does what the specified sync does; on success it returns the current view, which has no stale scopes |
| Retry.BackoffIsPositive | common/retry.go:121-131 | Every wait is between one second and one minute, which is what makes the loop end |
| Retry.RunWithRetry | common/retry.go:357-407 | The attempt loop, against any clock that never runs backwards, computes the specified run |
| Retry.OutcomeIsTheLastAttempt | common/retry.go:368-405 | All attempts but the last failed retryably, there is one wait between two attempts, and the outcome is decided by the last attempt alone |
| Retry.WaitsDouble | common/retry.go:121-131 | In every run the wait after attempt i+1 is the least of 2^i seconds, 60 seconds and the window left when that attempt has failed |
| Retry.SleepsFitTheWindow | common/retry.go:289-299 | Every wait is positive and at most a minute, and all waits together never exceed the window |
| Retry.UnreachableOnlyAfterTheWindow | common/retry.go:385-397 | A call is given up as unreachable only when the clock is past the window |
| Retry.HopelessSpendsTheWindow | common/retry.go:385-405 | If only waits take time and every attempt fails retryably, then for every window the waits add up to exactly it, and the attempts are one more than the least n for which min(2^(k-1), 60) seconds over k = 1..n reach it |
| Retry.AttemptsOfAHopelessCall | common/retry.go:121-131 | For a window W of 63 seconds or more that is 7 + ceil((W - 63 s)/60 s) attempts |
| Retry.CallWith | common/call.go:183-207 | A command that is not read-only runs with a zero window whatever the policy says |
| Retry.RetriedExactlyWhen | common/call.go:183-187 | A call is attempted more than once iff the command is ping, coroutine, server-status or a query and the first attempt failed retryably before the window was over |
| Wire.ValidWireStrings | common/wire.go:37-80 | The index-jumping scanner never indexes out of range and accepts exactly the valid UTF-8 inputs the grammar produces |
| Wire.ScannerDecidesTheGrammar | common/wire.go:41-79 | The scan accepts iff the input is a sequence of non-quote bytes and closed strings whose `\u` escapes are non-surrogates or a high surrogate directly followed by an escaped low one (sections 7 and 8.2 of RFC 8259) |
| Wire.HexIsRead | common/wire.go:60-73 | Every number below 0x10000, in four hex digits of either case, is read back |
| Wire.HexDigitsAre | common/wire.go:60-73 | Every accepted hex digit is the digit of its value in one of the two cases |
| FieldPointers.TwoPassesAreOne | common/query_v1.go:471-476 | On every part the two ReplaceAll passes equal the one-pass decoder of section 4 of RFC 6901, extended so that a tilde that starts no escape stands for itself |
| FieldPointers.EscapeRoundTrip | common/query_v1.go:471-476 | Every name, escaped, is accepted, holds no slash and decodes to itself |
| FieldPointers.DecodeRoundTrip | common/query_v1.go:471-476 | Every accepted part is the escape of what it decodes to |
| FieldPointers.CheckEscapes | common/query_v1.go:462-469 | The index-moving loop accepts iff every tilde starts an escape |
| FieldPointers.QueryFieldPointer | common/query_v1.go:453-479 | The imperative check accepts exactly the specified pointers with the specified group, field and name |
| FieldPointers.PointersAreFields | common/query_v1.go:453-488 | A pointer is accepted as (group, field, name) iff the field exists, a name is given only for a user parameter, and the pointer is the escaped path: one pointer per field, one field per pointer |
| Blobs.ReadQueryBlob | common/query_client.go:470-503 | The result is the parsed document of the fetched bytes iff they match the digest and parse; with a parser that refuses the empty document, a blob of no bytes always fails without a request |
| Blobs.FetchedIsJoined | common/query_client.go:474-493 | On success the bytes are the in-order concatenation of the server's pieces, exactly as many as announced, and each piece came as the chunk of this blob, offset, total and digest that was due |
| Blobs.ChunkRequestsAreBounded | common/query_client.go:475-493 | At most one request per announced byte, whatever the server answers |
| Blobs.AnyCutIsFetched | common/query_client.go:475-493 | Any cutting of a payload into non-empty chunks of permitted size is fetched back as that payload |
| Blobs.ResolvedSlotExists | common/query_client.go:407-468 | A pointer walk that succeeds ends in a slot that exists, one slot per pointer part |
| Blobs.PointerSlotExists | common/query_client.go:407-452 | Every accepted blob pointer names an existing slot at least two levels down |
| Blobs.PutChangesOneSlot | common/query_client.go:388-394 | A substitution makes its slot hold the value and changes no slot that is not above or below it |
| Blobs.SubstituteBlobs | common/query_client.go:374-395 | The loop over the references refuses repeated pointers and missing slots and otherwise writes each value, in order |
| Blobs.SubstitutesExactly | common/query_client.go:374-395 | Resolving the blobs succeeds iff no pointer repeats and, one after the other, each names a slot of the tree as it then is and its blob was read; the result is the tree after the last write |
| Blobs.SubstitutionIsLocal | common/query_client.go:374-395 | Resolving all blobs leaves every slot not above or below a written one as the server sent it |
| Blobs.SubstitutedSlotHolds | common/query_client.go:374-395 | After all writes every referenced slot holds the value fetched for it, unless a later write went to that slot, above it or below it |
| BlobPointers.SameSlotExactly | common/query_client.go:407-468 | Two accepted pointers name the same slot of a tree iff their canonical forms are equal: parts re-escaped, array indices without leading zeros |
| BlobPointers.CanonicalNamesTheSlot | common/query_client.go:407-468 | The canonical form of an accepted pointer is itself accepted and names the same slot |
| BlobPointers.DigitsAreRead | common/query_client.go:454-468 | An index written in decimal is read back |
| BlobPointers.PathIsNamed | common/query_client.go:407-468 | Round trip: the pointer of any existing slot at least two levels down, keys escaped and indices in decimal, names exactly that slot |
| BlobPointers.PathHoldsItsBlob | common/query_client.go:374-395 | After all writes the slot at the path a reference points to holds the value fetched for it, unless a later write went to that slot, above it or below it |
| BlobPointers.PlainPointersDiffer | common/query_client.go:374-383 | Distinct accepted pointers without stray tildes and leading zeros name distinct slots, so for them the client's string comparison finds every repetition |
| BlobPointers.LeadingZerosNameOneSlot | common/query_client.go:454-468 | The pointers `/groups/runtime/limits/0` and `/groups/runtime/limits/00` name one slot of a runtime group with one limit |
| BlobPointers.StrayTildesNameOneSlot | common/query_client.go:414-438 | The pointers `/groups/runtime/repeat/~` and `/groups/runtime/repeat/~0` name one slot of a runtime group whose repeat has the key `~` |

## Left out

- Transports, gRPC, HTTP, TLS, proxies, credentials, cmd/, rendering, temporary files and generated protobuf code: I/O and library calls. A reply is an arbitrary document or an abstract failure.
- JSON parsing, base64, SHA-256, `utf8.Valid` and the regular expressions: decoded documents are the starting point, and the digest, the parser and UTF-8 validity are parameters. So is the encoded length of a since page.
- How a time stamp is read: a stamp is its text and the instant the library makes of it, if any; that both stamps are read, and that a batch expires after it was made, is checked as the decoder does.
- Value shapes of detail operations and detail groups (`validQuerySetValue` beyond the pointer, `validQueryGroup`), the identity checks of `readQueryDetail`, and JSON documents whose keys differ only in letter case.
- The constants of the capabilities document and the size limit on an answer's raw text: a document with other constants, or a longer one, is one that does not decode (`OtherKind`).
- The decoder's own rejection of repeated operations within one page (common/query_v1.go:807-824): the client's test over the whole batch refuses the same summary operations; only which of two errors is reported first can differ.
- The decoder's check of the client's own requests (common/query_client.go:119-125): the selection test stands for the fields of a page request, the view invariant covers those of a since request, and whether a request exceeds the size limit of common/query_v1.go:615-618 is part of the stream (`TooLarge`), not computed from the scope and the cursor.
- The superseded-query branch at common/query_since.go:181-183: the lock is held, so the snapshot is still current there; the client's methods prove it.
- The pause of a sync between two polls: it changes nothing the model speaks of.
- Resolution of the retry window from the environment, the wording of messages, and the change of a verdict's name for mutations (common/call.go:208-214).
- The detail tree is a value: `Blobs.SubstituteBlobs` does not capture aliasing between parts of a decoded tree.
- Integers are unbounded: overflow of 64-bit durations and byte counts is not part of this model. All byte counts are bounded by the budgets, and delays are clipped to the window.
- The local maps of one since call (changes, removed roots, seen keys) are values held in local variables; they are never shared.
- Two views' identity is their position in the history; a caller comparing old snapshot pointers with each other is not modelled.
