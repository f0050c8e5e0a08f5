/**
 Prepare, flatten, upload, publish, end to end: what the published paths promise
 to those who later substitute them, and exactly when the gate can promise more.
 */
module Pipeline {
  import opened Sequences
  import opened Reachability
  import opened ReferenceWalk
  import opened PreparedClosure
  import opened Publication
  import opened PushRun

  /** The paths indexed after preparing these roots and uploading the paths in up. */
  ghost function Published(g: Graph, roots: seq<Path>, up: set<Path>): set<Path>
    requires Closed(LinksOf(g)) && Elems(roots) <= g.Keys
  {
    Elems(CompleteReceipts(LinksOf(g), up, roots).published)
  }

  /** g was prepared from these roots; the rest follows from it. */
  ghost predicate Ready(st: Store, universe: set<Path>, roots: seq<Path>, g: Graph)
  {
    IsPrepared(st, universe, roots, g) && Closed(LinksOf(g)) && Elems(roots) <= g.Keys
  }

  lemma PreparedIsReady(st: Store, universe: set<Path>, roots: seq<Path>, g: Graph)
    requires IsPrepared(st, universe, roots, g)
    ensures Ready(st, universe, roots, g)
  {
    LinksFormLevels(st, universe, roots, g);
    PreparedIsLayered(st, universe, roots, g);
    assert AtDepth(g, 0) == Elems(roots);
  }

  lemma EveryPathFromRoots(st: Store, universe: set<Path>, roots: seq<Path>, g: Graph, p: Path)
    requires Ready(st, universe, roots, g)
    ensures FromSome(LinksOf(g), roots, p) <==> p in g
  {
    if p in g {
      var r := HangsFromRoot(st, universe, roots, g, p);
    }
    if FromSome(LinksOf(g), roots, p) {
      var r :| r in roots && Reaches(LinksOf(g), r, p);
      var n: nat :| ReachIn(LinksOf(g), r, p, n);
      assert r in Elems(roots);
      ClosedSetHoldsReach(LinksOf(g), g.Keys, r, p, n);
    }
  }

  /** Every prepared path is exactly one upload task. */
  lemma TasksArePreparedPaths(st: Store, universe: set<Path>, roots: seq<Path>, g: Graph)
    requires Ready(st, universe, roots, g)
    ensures NoDup(TaskPaths(Flatten(LinksOf(g), roots)))
    ensures forall p :: p in TaskPaths(Flatten(LinksOf(g), roots)) <==> p in g
  {
    FlattenListsReachable(LinksOf(g), roots);
    forall p
      ensures p in TaskPaths(Flatten(LinksOf(g), roots)) <==> p in g
    {
      EveryPathFromRoots(st, universe, roots, g, p);
    }
  }

  /** A task is flagged as a root exactly when its path was requested. */
  lemma TasksFlagRoots(st: Store, universe: set<Path>, roots: seq<Path>, g: Graph)
    requires Ready(st, universe, roots, g)
    ensures forall t :: t in Flatten(LinksOf(g), roots) ==> (t.isRoot <==> t.path in roots)
  {
    LinksFormLevels(st, universe, roots, g);
    FlattenFlagsRoots(LinksOf(g), roots);
  }

  /** Indexed means uploaded with everything linked below it. */
  lemma PublishedIff(st: Store, universe: set<Path>, roots: seq<Path>, g: Graph, up: set<Path>, p: Path)
    requires Ready(st, universe, roots, g)
    ensures p in Published(g, roots, up) <==> p in g && ClosureUploaded(LinksOf(g), up, p)
  {
    LinksFormLevels(st, universe, roots, g);
    CompleteReceiptsExact(LinksOf(g), up, roots);
    EveryPathFromRoots(st, universe, roots, g, p);
  }

  /** The index is closed under the links of the results, whatever uploads failed. */
  lemma PublishedClosedUnderLinks(st: Store, universe: set<Path>, roots: seq<Path>, g: Graph, up: set<Path>, p: Path,
                                  q: Path)
    requires Ready(st, universe, roots, g)
    requires p in Published(g, roots, up) && Reaches(LinksOf(g), p, q)
    ensures q in up && q in Published(g, roots, up)
  {
    PublishedIff(st, universe, roots, g, up, p);
    var n: nat :| ReachIn(LinksOf(g), p, q, n);
    ClosedSetHoldsReach(LinksOf(g), g.Keys, p, q, n);
    forall x | Reaches(LinksOf(g), q, x)
      ensures x in up
    {
      ReachesTransitive(LinksOf(g), p, q, x);
    }
    PublishedIff(st, universe, roots, g, up, q);
  }

  /** A single requested path is indexed if and only if its whole missing closure was uploaded. */
  lemma SingleRootPublishedIff(st: Store, universe: set<Path>, root: Path, g: Graph, up: set<Path>)
    requires Ready(st, universe, [root], g)
    ensures root in Published(g, [root], up) <==> g.Keys <= up
    ensures root in Published(g, [root], up) ==> Published(g, [root], up) == g.Keys
  {
    assert root in Elems([root]);
    PublishedIff(st, universe, [root], g, up, root);
    forall p | p in g
      ensures Reaches(LinksOf(g), root, p)
    {
      EveryPathFromRoots(st, universe, [root], g, p);
    }
    forall p | Reaches(LinksOf(g), root, p)
      ensures p in g
    {
      assert FromSome(LinksOf(g), [root], p) by { assert root in [root]; }
      EveryPathFromRoots(st, universe, [root], g, p);
    }
    if root in Published(g, [root], up) {
      forall p
        ensures p in Published(g, [root], up) <==> p in g
      {
        PublishedIff(st, universe, [root], g, up, p);
        if p in g { PublishedClosedUnderLinks(st, universe, [root], g, up, root, p); }
      }
    }
  }

  /** Without failed uploads everything prepared is indexed, so nothing indexed misses a reference. */
  lemma NoFailurePublishesAll(st: Store, universe: set<Path>, roots: seq<Path>, g: Graph, up: set<Path>)
    requires Ready(st, universe, roots, g) && g.Keys <= up
    ensures Published(g, roots, up) == g.Keys
    ensures forall p, q :: p in Published(g, roots, up) && q in g[p].missing ==> q in Published(g, roots, up)
  {
    LinksFormLevels(st, universe, roots, g);
    forall p
      ensures p in Published(g, roots, up) <==> p in g
    {
      PublishedIff(st, universe, roots, g, up, p);
      if p in g {
        forall q | Reaches(LinksOf(g), p, q)
          ensures q in up
        {
          var n: nat :| ReachIn(LinksOf(g), p, q, n);
          ClosedSetHoldsReach(LinksOf(g), g.Keys, p, q, n);
        }
      }
    }
  }

  // ---- what the gate does not promise ------------------------------------------

  /** Whatever uploads fail, p is never indexed without q. */
  ghost predicate Protected(g: Graph, roots: seq<Path>, p: Path, q: Path)
    requires Closed(LinksOf(g)) && Elems(roots) <= g.Keys
  {
    forall up: set<Path> :: p in Published(g, roots, up) ==> q in Published(g, roots, up)
  }

  ghost function LinkClosure(g: Graph, p: Path): set<Path>
  {
    set q | q in g && Reaches(LinksOf(g), p, q)
  }

  /** A missing reference leads down by a link, or to the path itself, or out of what its links reach. */
  lemma UnlinkedIsNotReached(st: Store, universe: set<Path>, roots: seq<Path>, g: Graph, p: Path, q: Path)
    requires Ready(st, universe, roots, g) && p in g && q in g[p].missing
    requires q != p && q !in g[p].links
    ensures !Reaches(LinksOf(g), p, q)
  {
    PreparedIsLayered(st, universe, roots, g);
    LinkIffOneDeeper(g, p, q);
    assert EdgesBounded(g, {});
    if Reaches(LinksOf(g), p, q) {
      var n: nat :| ReachIn(LinksOf(g), p, q, n);
      LinksAddDepth(g, p, q, n);
      assert false;
    }
  }

  /**
   The gate protects a missing reference against every pattern of failures if and
   only if the result links it or it is a reference to itself. A reference to a
   path that an earlier or the same level already took up is not protected.
   */
  lemma ProtectedIffLinked(st: Store, universe: set<Path>, roots: seq<Path>, g: Graph, p: Path, q: Path)
    requires Ready(st, universe, roots, g) && p in g && q in g[p].missing
    ensures Protected(g, roots, p, q) <==> q == p || q in g[p].links
  {
    if q == p || q in g[p].links {
      forall up: set<Path> | p in Published(g, roots, up)
        ensures q in Published(g, roots, up)
      {
        if q != p {
          ReachInEdge(LinksOf(g), p, q);
          PublishedClosedUnderLinks(st, universe, roots, g, up, p, q);
        }
      }
    } else {
      var up := LinkClosure(g, p);
      UnlinkedIsNotReached(st, universe, roots, g, p, q);
      forall x | Reaches(LinksOf(g), p, x)
        ensures x in up
      {
        var n: nat :| ReachIn(LinksOf(g), p, x, n);
        ClosedSetHoldsReach(LinksOf(g), g.Keys, p, x, n);
      }
      PublishedIff(st, universe, roots, g, up, p);
      PublishedIff(st, universe, roots, g, up, q);
      ReachesSelf(LinksOf(g), q);
      assert q !in up;
    }
  }

  /**
   "Only index store paths whose full closure was uploaded" holds under every
   pattern of failures if and only if each missing reference of each result is
   the result itself or is linked under it, which can be read off before uploading.
   */
  lemma FullClosurePromiseIff(st: Store, universe: set<Path>, roots: seq<Path>, g: Graph)
    requires Ready(st, universe, roots, g)
    ensures
      (forall up: set<Path>, p, q ::
         p in Published(g, roots, up) && p in g && q in g[p].missing ==> q in Published(g, roots, up))
      <==>
      (forall p, q :: p in g && q in g[p].missing ==> q == p || q in g[p].links)
  {
    if forall p, q :: p in g && q in g[p].missing ==> q == p || q in g[p].links {
      forall up: set<Path>, p, q | p in Published(g, roots, up) && p in g && q in g[p].missing
        ensures q in Published(g, roots, up)
      {
        ProtectedIffLinked(st, universe, roots, g, p, q);
      }
    }
    if forall up: set<Path>, p, q ::
      p in Published(g, roots, up) && p in g && q in g[p].missing ==> q in Published(g, roots, up)
    {
      forall p, q | p in g && q in g[p].missing
        ensures q == p || q in g[p].links
      {
        ProtectedIffLinked(st, universe, roots, g, p, q);
      }
    }
  }

  /** Two requested paths, the first referring to the second, and no upstream. */
  const TWO_ROOTS := Store(
    (p: Path) => if p == "A" then Some(["B"]) else Some([]),
    (p: Path) => Some(p),
    (p: Path) => true,
    (d: nat, hashes: set<Hash>) => map[])

  function TwoRootsGraph(): Graph
  {
    map["A" := Node(0, ["B"], []), "B" := Node(0, [], [])]
  }

  lemma TwoPathsUnseen()
    ensures Unseen(["A", "B"], {}) == ["A", "B"]
    ensures Unseen(["B"], {}) == ["B"] && Unseen<Path>([], {"B"}) == []
  {
    assert Unseen<Path>([], {}) == [] && Elems<Path>([]) == {};
    hide Unseen;
    UnseenAppend<Path>([], "A", {});
    UnseenAppend<Path>([], "B", {});
    UnseenAppend<Path>(["A"], "B", {});
    assert [] + ["A"] == ["A"] && [] + ["B"] == ["B"] && ["A"] + ["B"] == ["A", "B"];
  }

  lemma TwoRootsMissingAt()
    ensures MissingAt(TWO_ROOTS, 0, {"A", "B"}, "A") == ["B"] && MissingAt(TWO_ROOTS, 0, {"A", "B"}, "B") == []
  {
    assert LevelAnswer(TWO_ROOTS, 0, {"A", "B"}) == map[];
    hide LevelAnswer, KeepIn;
  }

  lemma TwoRootsMissing()
    ensures AllMissing(TWO_ROOTS, 0, {"A", "B"}, ["A", "B"]) == ["B"]
  {
    var level: set<Path> := {"A", "B"};
    TwoPathsUnseen();
    TwoRootsMissingAt();
    assert Elems<Path>([]) == {} && Elems(["B"]) == {"B"};
    hide Unseen, MissingAt, Elems;
    assert ["A", "B"][..1] == ["A"] && ["A"][..0] == [];
    assert AllMissing(TWO_ROOTS, 0, level, []) == [];
    assert AllMissing(TWO_ROOTS, 0, level, ["A"]) == ["B"];
  }

  lemma TwoRootsBelow()
    ensures Walk(TWO_ROOTS, {"A", "B"}, 1, ["B"], {"A", "B"}) == Walked([], map[])
  {
    var universe: set<Path> := {"A", "B"};
    assert Elems(["B"]) <= universe;
    assert FiniteStore(TWO_ROOTS, universe);
    assert ["B"][..0] == [] && Unseen<Path>([], universe) == [];
    assert Unseen(["B"], universe) == [];
  }

  lemma TwoRootsNodes()
    ensures LevelNodes(TWO_ROOTS, 0, ["A", "B"], []) == TwoRootsGraph()
  {
    TwoRootsMissingAt();
    hide MissingAt, KeepIn;
    assert Elems<Path>(["A", "B"]) == {"A", "B"};
    KeepInNone(["B"]);
    assert Elems<Path>([]) == {};
    assert KeepIn<Path>([], {}) == [] by { KeepInNone<Path>([]); }
  }

  lemma TwoRootsForest()
    requires FiniteStore(TWO_ROOTS, {"A", "B"}) && Elems(["A", "B"]) == {"A", "B"} && Elems(["B"]) <= {"A", "B"}
    ensures Walk(TWO_ROOTS, {"A", "B"}, 0, ["A", "B"], {}) == Walked(["A", "B"], TwoRootsGraph())
  {
    hide *;
    var st, universe: set<Path>, roots: seq<Path> := TWO_ROOTS, {"A", "B"}, ["A", "B"];
    TwoPathsUnseen();
    AllPreparable();
    TwoRootsMissing();
    TwoRootsBelow();
    WalkOnto(st, universe, roots, universe, ["B"], Walked([], map[]));
    TwoRootsNodes();
    assert map[] + LevelNodes(st, 0, roots, []) == LevelNodes(st, 0, roots, []);
  }

  lemma AllPreparable()
    ensures forall p: Path :: Preparable(TWO_ROOTS, p)
  {
  }

  lemma TwoRootsWalk()
    ensures IsPrepared(TWO_ROOTS, {"A", "B"}, ["A", "B"], TwoRootsGraph())
  {
    assert Elems<Path>(["A", "B"]) == {"A", "B"} && Elems<Path>(["B"]) <= {"A", "B"};
    assert FiniteStore(TWO_ROOTS, {"A", "B"});
    hide Walk, Elems, FiniteStore;
    TwoRootsForest();
  }

  /** The upload of B fails, and A is indexed although it refers to B. */
  lemma RootToRootIsUnprotected()
    ensures Ready(TWO_ROOTS, {"A", "B"}, ["A", "B"], TwoRootsGraph())
    ensures "B" in TwoRootsGraph()["A"].missing
    ensures "A" in Published(TwoRootsGraph(), ["A", "B"], {"A"})
      && "B" !in Published(TwoRootsGraph(), ["A", "B"], {"A"})
  {
    var g, roots: seq<Path>, up := TwoRootsGraph(), ["A", "B"], {"A"};
    TwoRootsWalk();
    PreparedIsReady(TWO_ROOTS, {"A", "B"}, roots, g);
    PublishedIff(TWO_ROOTS, {"A", "B"}, roots, g, up, "A");
    PublishedIff(TWO_ROOTS, {"A", "B"}, roots, g, up, "B");
    ReachesSelf(LinksOf(g), "B");
    forall q | Reaches(LinksOf(g), "A", q)
      ensures q in up
    {
      ReachesUnfold(LinksOf(g), "A", q);
    }
  }

  // ---- chunks of a run -----------------------------------------------------------

  /** What one chunk of a push run indexes: closed under links, and complete when nothing failed. */
  lemma ChunkIndexIsClosed(st: Store, universe: set<Path>, c: Chunk, p: Path, q: Path)
    requires GoodChunk(st, universe, true, c)
    requires p in c.published && Reaches(LinksOf(c.g), p, q)
    ensures q in c.up && q in c.published
  {
    PreparedIsReady(st, universe, c.paths, c.g);
    assert p in Published(c.g, c.paths, c.up);
    PublishedClosedUnderLinks(st, universe, c.paths, c.g, c.up, p, q);
  }

  lemma ChunkIsReady(st: Store, universe: set<Path>, c: Chunk)
    requires GoodChunk(st, universe, true, c)
    ensures Ready(st, universe, c.paths, c.g) && Elems(c.published) == Published(c.g, c.paths, c.up)
    ensures Elems(c.failed) == Elems(TaskPaths(Flatten(LinksOf(c.g), c.paths))) - c.up
  {
    PreparedIsReady(st, universe, c.paths, c.g);
    TaskSetIsPaths(c.tasks);
    hide Ready, IsPrepared, Flatten, TaskSet, TaskPaths;
  }

  lemma ChunkWithoutFailures(st: Store, universe: set<Path>, c: Chunk, p: Path)
    requires GoodChunk(st, universe, true, c) && c.failed == []
    ensures p in c.published <==> p in c.g
    ensures p in c.g ==> forall q :: q in c.g[p].missing ==> q in c.published
  {
    ChunkIsReady(st, universe, c);
    assert Elems(c.failed) == {};
    assert p in c.published <==> p in Elems(c.published);
    assert forall q :: q in Elems(c.published) ==> q in c.published;
    hide *;
    TasksArePreparedPaths(st, universe, c.paths, c.g);
    AllUploaded(c.g, TaskPaths(Flatten(LinksOf(c.g), c.paths)), c.up);
    NoFailurePublishesAll(st, universe, c.paths, c.g, c.up);
  }

  lemma AllUploaded(g: Graph, tasks: seq<Path>, up: set<Path>)
    requires Elems(tasks) - up == {} && forall p :: p in tasks <==> p in g
    ensures g.Keys <= up
  {
    forall p | p in g
      ensures p in up
    {
      assert p in Elems(tasks) && p !in Elems(tasks) - up;
    }
  }
}
