/** A concrete server, and a client that reads a view scoped below a flow and then one removal
    batch: the view it ends with knows no flow generation, not even its root's. */
module DeepScopes {
  import opened Wrappers
  import opened Text
  import opened Paths
  import opened Documents
  import opened Views
  import opened Delta
  import opened Batches
  import opened Paging
  import opened Commits
  import opened CommitInvariants
  import opened Assembly
  import opened AssemblyProperties
  import opened Listings
  import opened Runs
  import opened Publications

  // --- what the server sends

  const CONTAINER := QueryNode("/f/c", "container", "container", "queued", false, None)
  const TASK := QueryNode("/f/c/t", "task", "task", "queued", false, None)

  const AS_OF := Stamp("1970-01-01T00:00:00Z", Some(0))
  const EXPIRES_AT := Stamp("1970-01-01T00:00:01Z", Some(1_000_000_000))

  // Container /f/c with its task /f/c/t, and the generation of flow /f.
  const PAGE := QueryPage("s", "q", "n", Some(1), AS_OF, EXPIRES_AT, 0, Some(2), true, None, "root",
                          map["/f" := "g"], [CONTAINER, TASK])

  const REMOVE_TASK := QueryOperation(RemoveSubtree, "/f/c/t", Some("g"), None, None, None)

  const BATCH := QuerySince("s", "q", "b", 1, 2, AS_OF, EXPIRES_AT, 0, true, None, false, [REMOVE_TASK], 400)

  function Answers(n: nat): Reply {
    if n == 0 then Answered(Page(PAGE))
    else if n == 1 then Answered(Capabilities(true))
    else Answered(Since(BATCH))
  }

  // --- what the client asks

  const SELECTION := Selection("/f/c", "", None)

  const EVENTS := [RebuildView(SELECTION), ReadSince(true)]

  // --- the paths

  lemma OneSegment()
    ensures ValidPath("/f") && Segments("/f") == ["f"]
  {
    assert TreeSegment("f");
    RenderedIsValid(["f"]);
    assert ["f"][1..] == [];
    assert Render(["f"]) == "/f";
  }

  lemma TwoSegments()
    ensures ValidPath("/f/c") && Segments("/f/c") == ["f", "c"]
  {
    assert TreeSegment("f") && TreeSegment("c");
    RenderedIsValid(["f", "c"]);
    assert ["f", "c"][1..] == ["c"] && ["c"][1..] == [];
    assert Render(["f", "c"]) == "/f/c";
  }

  lemma ThreeSegments()
    ensures ValidPath("/f/c/t") && Segments("/f/c/t") == ["f", "c", "t"]
  {
    assert TreeSegment("f") && TreeSegment("c") && TreeSegment("t");
    RenderedIsValid(["f", "c", "t"]);
    assert ["f", "c", "t"][1..] == ["c", "t"] && ["c", "t"][1..] == ["t"] && ["t"][1..] == [];
    assert Render(["f", "c", "t"]) == "/f/c/t";
  }

  lemma PathsInSegments()
    ensures ValidPath("/f") && Segments("/f") == ["f"]
    ensures ValidPath("/f/c") && Segments("/f/c") == ["f", "c"]
    ensures ValidPath("/f/c/t") && Segments("/f/c/t") == ["f", "c", "t"]
  {
    hide ValidPath, Segments;
    OneSegment();
    TwoSegments();
    ThreeSegments();
  }

  lemma PathsRelated()
    ensures Covers("/f/c", "/f/c") && Covers("/f/c", "/f/c/t") && Parent("/f/c/t") == "/f/c"
    ensures Flow("/f/c") == "/f" && Flow("/f/c/t") == "/f"
  {
    PathsInSegments();
    CoversIsPrefix("/f/c", "/f/c/t");
    ParentDropsLast("/f/c/t");
    ValidSegments(Parent("/f/c/t"));
    ValidSegments("/f/c");
    assert ["f", "c", "t"][..2] == ["f", "c"];
    FlowIsFirst("/f/c");
    FlowIsFirst("/f/c/t");
    ValidSegments(Flow("/f/c"));
    ValidSegments(Flow("/f/c/t"));
    ValidSegments("/f");
    assert ["f", "c"][..1] == ["f"] == ["f", "c", "t"][..1];
  }

  // --- the rebuild

  lemma GenerationKey()
    ensures Count("/f", '/') == 1
  {
    PathsInSegments();
    ValidSegments("/f");
    SlashCount(["f"]);
  }

  lemma PageIsValid()
    ensures ValidPage(PAGE)
  {
    hide ValidPath, Flow, Segments, Count;
    PathsInSegments();
    PathsRelated();
    GenerationKey();
    assert ValidNode(CONTAINER) && ValidNode(TASK);
  }

  lemma PageIsServed()
    ensures ServesPages(Answers, 0, [PAGE]) && ClosedListing([PAGE])
    ensures AllNodes([PAGE]) == [CONTAINER, TASK]
  {
    hide ValidPage;
    PageIsValid();
    assert [PAGE][1..] == [];
    assert [CONTAINER, TASK] + AllNodes([]) == [CONTAINER, TASK];
  }

  lemma NodesInOrder(header: Header)
    requires header.scopePath == "/f/c" && header.depth == None
    ensures TreeOrder(header, [CONTAINER, TASK]) && Fits(0, [CONTAINER, TASK])
  {
    hide ValidPath, Parent, Segments;
    PathsInSegments();
    PathsRelated();
    assert PathsOf([CONTAINER, TASK]) == ["/f/c", "/f/c/t"];
    assert ["/f/c", "/f/c/t"][..1] == ["/f/c"];
    assert ["f", "c"] <= ["f", "c"] && ["f", "c"] <= ["f", "c", "t"];
    ListedSnoc([CONTAINER], TASK);
    ListedSnoc([], CONTAINER);
    assert [] + [CONTAINER] == [CONTAINER] && [CONTAINER] + [TASK] == [CONTAINER, TASK];
  }

  lemma PageIsLegal()
    ensures LegalListing(SELECTION, 0, [PAGE])
  {
    hide ValidPage, TreeOrder, Fits, AllNodes;
    PageIsValid();
    PageIsServed();
    NodesInOrder(HeaderOf(SELECTION, [PAGE]));
  }

  // The view the first call publishes.
  ghost function Deep(): View {
    ListedView(SELECTION, [PAGE])
  }

  lemma FirstCall()
    ensures HistoryOk([]) && RebuildStep([], SELECTION, Answers, 0) == Stepped([Deep()], None, 1)
    ensures ViewOk(Deep()) && Covered(Deep())
  {
    hide LegalListing, ListedView, Rebuild, ViewOk, Covered, ServesPages, ClosedListing;
    PathsInSegments();
    PageIsServed();
    PageIsLegal();
    assert SelectionOk(SELECTION);
    assert ServesLegalListing(SELECTION, 0, Answers, 0, [PAGE]);
    RebuildIsExact(SELECTION, 0, Answers, 0);
    RebuildIsFresh(SELECTION, 0, Answers, 0);
    assert [] + [Deep()] == [Deep()];
  }

  lemma DeepIs()
    ensures Deep().header == Header("s", "q", "n", AS_OF, EXPIRES_AT, "root", "/f/c", None, 1)
    ensures Deep().nodes == map["/f/c" := CONTAINER, "/f/c/t" := TASK] && Deep().overrides == map[]
    ensures Deep().flowGenerations == map["/f" := "g"] && Deep().staleScopes == []
    ensures Deep().estimatedBytes <= 3000
  {
    hide AllNodes, TableOf, TotalOf, PathsOf, AllGenerations;
    PageIsServed();
    DeepNodes();
    DeepGenerations();
  }

  lemma DeepNodes()
    ensures TableOf([CONTAINER, TASK]) == map["/f/c" := CONTAINER, "/f/c/t" := TASK]
    ensures TotalOf([CONTAINER, TASK]) <= 1900
  {
    ListedSnoc([CONTAINER], TASK);
    ListedSnoc([], CONTAINER);
    assert [] + [CONTAINER] == [CONTAINER] && [CONTAINER] + [TASK] == [CONTAINER, TASK];
  }

  lemma DeepGenerations()
    ensures AllGenerations([PAGE]) == map["/f" := "g"]
  {
    JoinedSnoc([], PAGE);
    assert [] + [PAGE] == [PAGE];
  }

  // --- the since call

  lemma BatchIsAccepted()
    ensures AllValid([REMOVE_TASK]) && Accepted(Deep(), [REMOVE_TASK])
  {
    hide ValidPath, Segments;
    PathsInSegments();
    DeepIs();
    assert ValidOperation(REMOVE_TASK);
    assert ["f", "c"] <= ["f", "c", "t"] && "/" + "f" == "/f";
    assert NamesGeneration(Deep(), REMOVE_TASK);
    assert Allowed(Deep(), REMOVE_TASK);
  }

  lemma BatchOps()
    ensures Ops([BATCH]) == [REMOVE_TASK] && Cost([BATCH]) == 1424
    ensures Transcript([BATCH], [0]) == [Answered(Since(BATCH))]
  {
    OpsSnoc([], BATCH);
    assert [] + [BATCH] == [BATCH];
    assert [BATCH][..0] == [] && [0][..0] == [];
    assert Copies(BATCH, 1) == [Answered(Since(BATCH))];
  }

  lemma BatchIsLegal()
    ensures IsBatch(Deep(), Answers, 2, [BATCH], [0])
  {
    hide Accepted;
    BatchIsAccepted();
    BatchOps();
    DeepIs();
    PathsInSegments();
    assert ValidOperation(REMOVE_TASK);
    assert ValidSince(BATCH);
    assert [BATCH][..0] == [];
  }

  lemma TaskIsCommittable(s: Staged)
    requires s.removed == {"/f/c/t"} && s.changes == map[]
    ensures Committable(Deep(), s)
  {
    DeepIs();
    var v := Deep();
    assert CoversRemoved("/f/c/t", "/f/c/t") && !CoversRemoved("/f/c/t", "/f/c");
    assert Updated(Table(v), s) == map["/f/c" := CONTAINER];
    assert MapSize(map[]) == 0;
    MapSizeInsert(map[], "/f/c", CONTAINER);
    assert map[]["/f/c" := CONTAINER] == map["/f/c" := CONTAINER];
  }

  lemma BatchIsCommittable() returns (s: Staged)
    ensures Means(s, Ops([BATCH])) && Committable(Deep(), s)
    ensures s.removed == {"/f/c/t"}
  {
    hide Committable, Accepted;
    BatchIsAccepted();
    BatchOps();
    PathsInSegments();
    DeepIs();
    StagingIsExact(Deep(), [REMOVE_TASK]);
    s := StageAll(Deep(), NOTHING_STAGED, [REMOVE_TASK]).value;
    assert REMOVE_TASK in [REMOVE_TASK];
    assert RemovedRoots([REMOVE_TASK]) == {"/f/c/t"};
    assert UpsertPaths([REMOVE_TASK]) == {};
    TaskIsCommittable(s);
  }

  lemma RootIsFresh()
    ensures Readable(Deep(), Answers, 1)
  {
    DeepIs();
  }

  lemma SecondCall() returns (w: View)
    ensures ViewOk(Deep()) && SinceStep([Deep()], true, Answers, 1).history == [Deep(), w]
    ensures ViewOk(w) && w.flowGenerations == map[] && !Covered(w)
  {
    hide ViewOk, Covered, Commit, Committable, IsBatch, SinceOutcome, Deep, ValidSince, LegalPages, Means;
    FirstCall();
    DeepIs();
    RootIsFresh();
    BatchIsLegal();
    var s := BatchIsCommittable();
    assert MovesTo(Deep(), Answers, 1, [BATCH], [0], s);
    MovedBatchIsPublished(Deep(), Answers, 1, [BATCH], [0], s);
    w := Commit(Deep(), BATCH, s).view;
    PublishedIsOk(Deep(), Answers, 1, w);
    Forgotten(s, w);
    assert [Deep()] + [w] == [Deep(), w];
  }

  lemma Forgotten(s: Staged, w: View)
    requires s.removed != {} && Commit(Deep(), BATCH, s) == New(w) && ViewOk(w)
    ensures w.flowGenerations == map[] && !Covered(w)
  {
    hide ViewOk, Covered, Commit, Deep;
    FirstCall();
    DeepIs();
    PathsInSegments();
    DeepScopeLosesGenerations(Deep(), BATCH, s, w);
    CommittedLists(Deep(), BATCH, s, w);
    UncoveredRoot(w);
  }

  lemma RunOfTwo(h: History, first: Event, second: Event, server: Server, n: nat)
    requires HistoryOk(h)
    ensures var step := Step(h, first, server, n);
            && HistoryOk(step.history)
            && Run(h, [first, second], server, n).0 == Step(step.history, second, server, step.next).history
  {
    hide Step, HistoryOk;
    StepIsOk(h, first, server, n);
    var step := Step(h, first, server, n);
    StepIsOk(step.history, second, server, step.next);
    var last := Step(step.history, second, server, step.next);
    assert [first, second][1..] == [second] && [second][1..] == [];
    assert Run(last.history, [], server, last.next).0 == last.history;
    assert Run(step.history, [second], server, step.next).0 == last.history;
  }

  /** The first view knows the generation of each of its nodes; the second, which the client publishes
      after the removal, knows none. */
  lemma RemovalForgetsTheFlow()
    ensures HistoryOk([])
    ensures var h := Run([], EVENTS, Answers, 0).0;
            |h| == 2 && Covered(h[0]) && !Covered(h[1]) && h[1].flowGenerations == map[]
  {
    hide ViewOk, Covered, RebuildStep, SinceStep, Deep;
    FirstCall();
    var w := SecondCall();
    RunOfTwo([], RebuildView(SELECTION), ReadSince(true), Answers, 0);
  }
}
