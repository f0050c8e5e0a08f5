/**
 One push run: preparing a chunk, uploading its tasks in any order, publishing
 what is complete, and going on to the next chunk of at most a hundred paths.
 */
module PushRun {
  import opened Sequences
  import opened Reachability
  import opened ReferenceWalk
  import opened PreparedClosure
  import opened Publication
  import opened Preparation
  import opened Push

  /** g is the result graph of preparing these paths with or without their missing references. */
  ghost predicate ChunkGraph(st: Store, universe: set<Path>, paths: seq<Path>, prepareRefs: bool, g: Graph)
  {
    FiniteStore(st, universe) && Elems(paths) <= universe &&
    if prepareRefs then IsPrepared(st, universe, paths, g) else g == RootsOnly(st, paths)
  }

  lemma ChunkGraphIsClosed(st: Store, universe: set<Path>, paths: seq<Path>, prepareRefs: bool, g: Graph)
    requires ChunkGraph(st, universe, paths, prepareRefs, g)
    ensures Closed(LinksOf(g)) && Acyclic(LinksOf(g)) && Elems(paths) <= g.Keys
    ensures forall p, q :: p in g && q in g[p].links ==> q !in paths
  {
    if prepareRefs {
      LinksFormLevels(st, universe, paths, g);
      PreparedIsLayered(st, universe, paths, g);
      assert AtDepth(g, 0) == Elems(paths);
    } else {
      assert Elems<Path>([]) == {};
      forall p | p in g
        ensures g[p].links == []
      {
        KeepInNone(g[p].missing);
      }
    }
  }

  lemma ChunkIsRepresented(st: Store, universe: set<Path>, paths: seq<Path>, prepareRefs: bool, g: Graph,
                           objs: set<Result>)
    requires ChunkGraph(st, universe, paths, prepareRefs, g) && Shows(objs, g)
    ensures Represents(objs, LinksOf(g))
  {
    ChunkGraphIsClosed(st, universe, paths, prepareRefs, g);
    ShownGraphIsRepresented(objs, g);
  }

  /** When preparing these paths succeeds. */
  ghost predicate Prepares(st: Store, universe: set<Path>, paths: seq<Path>, prepareRefs: bool)
  {
    FiniteStore(st, universe) && Elems(paths) <= universe &&
    if prepareRefs then Prepared(st, universe, paths).Walked? else forall p :: p in paths ==> Preparable(st, p)
  }

  /** The one result graph that preparing these paths builds. */
  ghost function GraphOf(st: Store, universe: set<Path>, paths: seq<Path>, prepareRefs: bool): (g: Graph)
    requires Prepares(st, universe, paths, prepareRefs)
    ensures ChunkGraph(st, universe, paths, prepareRefs, g)
  {
    if !prepareRefs then RootsOnly(st, paths)
    else
      var forest := Prepared(st, universe, paths).forest;
      if |paths| == 1 then
        RootIsPrepared(st, universe, paths[0]);
        assert paths == [paths[0]];
        OnItsOwn(forest, paths[0])
      else forest
  }

  lemma RootIsPrepared(st: Store, universe: set<Path>, p: Path)
    requires Prepares(st, universe, [p], true)
    ensures p in Prepared(st, universe, [p]).forest
  {
    PreparedIsLayered(st, universe, [p], Prepared(st, universe, [p]).forest);
    assert AtDepth(Prepared(st, universe, [p]).forest, 0) == Elems([p]);
    assert p in Elems([p]);
  }

  method PrepareOne(st: Store, ghost universe: set<Path>, path: Path, prepareRefs: bool)
    returns (ok: bool, results: seq<Result>, ghost objs: set<Result>, ghost g: Graph)
    requires FiniteStore(st, universe) && path in universe
    ensures ok <==> Prepares(st, universe, [path], prepareRefs)
    ensures ok ==> g == GraphOf(st, universe, [path], prepareRefs)
    ensures ok ==> PathsOf(results) == [path] && Elems(results) <= objs && Represents(objs, LinksOf(g))
  {
    assert Elems([path]) == {path};
    var r;
    ok, r, objs := Prepare(st, universe, path, prepareRefs);
    results, g := [], map[];
    if ok {
      results := [r];
      g := if prepareRefs then OnItsOwn(Prepared(st, universe, [path]).forest, path) else RootsOnly(st, [path]);
      ChunkIsRepresented(st, universe, [path], prepareRefs, g, objs);
    }
  }

  method PrepareMany(st: Store, ghost universe: set<Path>, paths: seq<Path>, prepareRefs: bool)
    returns (ok: bool, results: seq<Result>, ghost objs: set<Result>, ghost g: Graph)
    requires FiniteStore(st, universe) && Elems(paths) <= universe
    ensures ok <==> Prepares(st, universe, paths, prepareRefs)
    ensures ok && |paths| != 1 ==> g == GraphOf(st, universe, paths, prepareRefs)
    ensures ok ==> PathsOf(results) == paths && Elems(results) <= objs && Represents(objs, LinksOf(g))
  {
    ok, results, objs := PrepareBatch(st, universe, paths, prepareRefs);
    g := map[];
    if ok {
      g := if prepareRefs then Prepared(st, universe, paths).forest else RootsOnly(st, paths);
      ChunkIsRepresented(st, universe, paths, prepareRefs, g, objs);
    }
  }

  /** Prepares one path by itself and any other number of paths as a batch. */
  method PrepareChunk(st: Store, ghost universe: set<Path>, paths: seq<Path>, prepareRefs: bool)
    returns (ok: bool, results: seq<Result>, ghost objs: set<Result>, ghost g: Graph)
    requires FiniteStore(st, universe) && Elems(paths) <= universe
    ensures ok <==> Prepares(st, universe, paths, prepareRefs)
    ensures ok ==> g == GraphOf(st, universe, paths, prepareRefs)
    ensures ok ==> PathsOf(results) == paths && Elems(results) <= objs && Represents(objs, LinksOf(g))
  {
    if |paths| == 1 {
      assert paths == [paths[0]] && paths[0] in Elems(paths);
      ok, results, objs, g := PrepareOne(st, universe, paths[0], prepareRefs);
    } else {
      ok, results, objs, g := PrepareMany(st, universe, paths, prepareRefs);
    }
  }

  /** The paths among tasks whose upload succeeds. */
  ghost function Succeeding(tasks: seq<Task>, uploads: Path -> bool): set<Path>
  {
    set t | t in tasks && uploads(t.path) :: t.path
  }

  /** The tasks no longer pending are recorded as done or as failed, the others nowhere. */
  ghost predicate Recorded(tasks: seq<PreparedTask>, uploads: Path -> bool, pending: set<nat>, done: set<Path>,
                           failed: seq<Path>)
  {
    && (forall i :: 0 <= i < |tasks| ==> (tasks[i].r.storePath in done <==>
      i !in pending && uploads(tasks[i].r.storePath)))
    && (forall i :: 0 <= i < |tasks| ==> (tasks[i].r.storePath in failed <==>
      i !in pending && !uploads(tasks[i].r.storePath)))
    && (forall p :: p in done || p in failed ==> p in TaskPaths(Plain(tasks)))
    && NoDup(failed)
  }

  lemma RecordOne(tasks: seq<PreparedTask>, uploads: Path -> bool, pending: set<nat>, done: set<Path>,
                  failed: seq<Path>, i: nat)
    requires NoDup(TaskPaths(Plain(tasks))) && i in pending && i < |tasks|
    requires Recorded(tasks, uploads, pending, done, failed)
    ensures tasks[i].r.storePath !in done && tasks[i].r.storePath !in failed
    ensures var p := tasks[i].r.storePath;
      if uploads(p) then Recorded(tasks, uploads, pending - {i}, done + {p}, failed)
      else Recorded(tasks, uploads, pending - {i}, done, failed + [p])
  {
    var paths := TaskPaths(Plain(tasks));
    assert forall j :: 0 <= j < |tasks| ==> paths[j] == tasks[j].r.storePath;
    assert forall j :: 0 <= j < |tasks| && j != i ==> paths[j] != paths[i];
    assert paths[i] in paths;
  }

  ghost predicate ReceiptsMatch(tasks: seq<PreparedTask>, byPath: map<Path, PushReceipt>)
  {
    forall t :: t in tasks && t.r.storePath in byPath ==> byPath[t.r.storePath] == PushReceipt(t.r.storePath, t.isRoot)
  }

  lemma MatchOne(tasks: seq<PreparedTask>, byPath: map<Path, PushReceipt>, i: nat)
    requires NoDup(TaskPaths(Plain(tasks))) && i < |tasks| && ReceiptsMatch(tasks, byPath)
    requires tasks[i].r.storePath !in byPath
    ensures var p := tasks[i].r.storePath;
      var byPath' := byPath[p := PushReceipt(p, tasks[i].isRoot)];
      ReceiptsMatch(tasks, byPath') && byPath'.Keys == byPath.Keys + {p} && |byPath'| == |byPath| + 1
  {
    var p := tasks[i].r.storePath;
    var paths := TaskPaths(Plain(tasks));
    forall t | t in tasks && t.r.storePath == p
      ensures t == tasks[i]
    {
      var j :| 0 <= j < |tasks| && tasks[j] == t;
      assert paths[j] == paths[i];
    }
  }

  /**
   Uploads every task and records each outcome under the lock, in whatever order
   the uploads finish; a failed upload never stops the others.
   */
  method UploadTaskSet(tasks: seq<PreparedTask>, uploads: Path -> bool)
    returns (byPath: map<Path, PushReceipt>, failed: seq<Path>, uploaded: nat)
    requires NoDup(TaskPaths(Plain(tasks)))
    ensures byPath.Keys == Succeeding(Plain(tasks), uploads)
    ensures forall t :: t in tasks && uploads(t.r.storePath) ==>
      t.r.storePath in byPath && byPath[t.r.storePath] == PushReceipt(t.r.storePath, t.isRoot)
    ensures NoDup(failed) && Elems(failed) == TaskSet(Plain(tasks)) - byPath.Keys
    ensures uploaded == |byPath| && uploaded + |failed| == |tasks|
  {
    hide *;
    byPath, failed, uploaded := map[], [], 0;
    var pending := Indices(|tasks|);
    NothingRecorded(tasks, uploads);
    assert byPath.Keys == {};
    while pending != {}
      invariant pending <= Indices(|tasks|)
      invariant Recorded(tasks, uploads, pending, byPath.Keys, failed)
      invariant ReceiptsMatch(tasks, byPath)
      invariant uploaded == |byPath| && uploaded + |failed| + |pending| == |tasks|
    {
      var i :| i in pending;
      var t := tasks[i];
      RecordOne(tasks, uploads, pending, byPath.Keys, failed, i);
      if uploads(t.r.storePath) {
        MatchOne(tasks, byPath, i);
        byPath := byPath[t.r.storePath := PushReceipt(t.r.storePath, t.isRoot)];
        uploaded := uploaded + 1;
      } else {
        failed := failed + [t.r.storePath];
      }
      pending := pending - {i};
    }
    AllRecorded(tasks, uploads, byPath, failed);
  }

  lemma NothingRecorded(tasks: seq<PreparedTask>, uploads: Path -> bool)
    ensures Recorded(tasks, uploads, Indices(|tasks|), {}, []) && ReceiptsMatch(tasks, map[])
  {
  }

  lemma AllRecorded(tasks: seq<PreparedTask>, uploads: Path -> bool, byPath: map<Path, PushReceipt>, failed: seq<Path>)
    requires Recorded(tasks, uploads, {}, byPath.Keys, failed) && ReceiptsMatch(tasks, byPath)
    ensures byPath.Keys == Succeeding(Plain(tasks), uploads)
    ensures NoDup(failed) && Elems(failed) == TaskSet(Plain(tasks)) - byPath.Keys
    ensures forall t :: t in tasks && uploads(t.r.storePath) ==>
      t.r.storePath in byPath && byPath[t.r.storePath] == PushReceipt(t.r.storePath, t.isRoot)
  {
    var done := byPath.Keys;
    OutcomesCover(tasks, uploads, done, Elems(failed));
    forall t | t in tasks && uploads(t.r.storePath)
      ensures t.r.storePath in byPath
    {
      var i :| 0 <= i < |tasks| && tasks[i] == t;
      assert tasks[i].r.storePath in done;
    }
  }

  lemma OutcomesCover(tasks: seq<PreparedTask>, uploads: Path -> bool, done: set<Path>, failed: set<Path>)
    requires forall i :: 0 <= i < |tasks| ==> (tasks[i].r.storePath in done <==> uploads(tasks[i].r.storePath))
    requires forall i :: 0 <= i < |tasks| ==> (tasks[i].r.storePath in failed <==> !uploads(tasks[i].r.storePath))
    requires forall p :: p in done || p in failed ==> p in TaskPaths(Plain(tasks))
    ensures done == Succeeding(Plain(tasks), uploads)
    ensures failed == TaskSet(Plain(tasks)) - done
  {
    var ts := Plain(tasks);
    forall p | p in done + failed
      ensures exists i :: 0 <= i < |tasks| && ts[i] in ts && ts[i].path == p && tasks[i].r.storePath == p
    {
      var i :| 0 <= i < |ts| && TaskPaths(ts)[i] == p;
      assert ts[i] in ts;
    }
    forall t | t in ts
      ensures t.path in done <==> uploads(t.path)
      ensures t.path in failed <==> !uploads(t.path)
    {
      var i :| 0 <= i < |ts| && ts[i] == t;
      assert tasks[i].r.storePath == t.path;
    }
  }

  // ---- the run ------------------------------------------------------------------

  const CHUNK_SIZE := 100

  /** What one chunk prepared, uploaded and published. */
  datatype Chunk = Chunk(paths: seq<Path>, g: Graph, tasks: seq<Task>, up: set<Path>, failed: seq<Path>,
    published: seq<Path>)

  ghost predicate GoodChunk(st: Store, universe: set<Path>, prepareRefs: bool, c: Chunk)
  {
    && ChunkGraph(st, universe, c.paths, prepareRefs, c.g)
    && Closed(LinksOf(c.g)) && Elems(c.paths) <= c.g.Keys
    && c.tasks == Flatten(LinksOf(c.g), c.paths)
    && c.up <= TaskSet(c.tasks)
    && NoDup(c.failed) && Elems(c.failed) == TaskSet(c.tasks) - c.up
    && |c.up| + |c.failed| == |c.tasks|
    && c.published == CompleteReceipts(LinksOf(c.g), c.up, c.paths).published
  }

  /** The requested paths, the failures, the number of tasks and of published roots of all chunks. */
  datatype Totals = Totals(paths: seq<Path>, failed: seq<Path>, tasks: nat, roots: nat)

  function Sum(cs: seq<Chunk>): Totals
  {
    if cs == [] then Totals([], [], 0, 0) else Plus(Sum(cs[..|cs| - 1]), cs[|cs| - 1])
  }

  function Plus(t: Totals, c: Chunk): Totals
  {
    Totals(t.paths + c.paths, t.failed + c.failed, t.tasks + |c.tasks|, t.roots + |KeepIn(c.published, Elems(c.paths))|)
  }

  function PathLists(cs: seq<Chunk>): (r: seq<seq<Path>>)
    ensures |r| == |cs| && forall i :: 0 <= i < |cs| ==> r[i] == cs[i].paths
  {
    seq(|cs|, i requires 0 <= i < |cs| => cs[i].paths)
  }

  function FailedLists(cs: seq<Chunk>): (r: seq<seq<Path>>)
    ensures |r| == |cs| && forall i :: 0 <= i < |cs| ==> r[i] == cs[i].failed
  {
    seq(|cs|, i requires 0 <= i < |cs| => cs[i].failed)
  }

  function TaskLists(cs: seq<Chunk>): (r: seq<seq<Task>>)
    ensures |r| == |cs| && forall i :: 0 <= i < |cs| ==> r[i] == cs[i].tasks
  {
    seq(|cs|, i requires 0 <= i < |cs| => cs[i].tasks)
  }

  /** The requested paths of each chunk that were published. */
  function RootLists(cs: seq<Chunk>): (r: seq<seq<Path>>)
    ensures |r| == |cs| && forall i :: 0 <= i < |cs| ==> r[i] == KeepIn(cs[i].published, Elems(cs[i].paths))
  {
    seq(|cs|, i requires 0 <= i < |cs| => KeepIn(cs[i].published, Elems(cs[i].paths)))
  }

  /** The totals of a run are those of its chunks, one after the other. */
  lemma {:induction false} SumIs(cs: seq<Chunk>)
    ensures Sum(cs) == Totals(Concat(PathLists(cs)), Concat(FailedLists(cs)), |Concat(TaskLists(cs))|,
                              |Concat(RootLists(cs))|)
  {
    if cs == [] {
      NoLists();
    } else {
      var n := |cs| - 1;
      SumIs(cs[..n]);
      NextLists(cs, n);
      var t := Sum(cs[..n]);
      assert Sum(cs) == Plus(t, cs[n]);
      hide *;
      ConcatAppend(PathLists(cs[..n]), cs[n].paths);
      ConcatAppend(FailedLists(cs[..n]), cs[n].failed);
      ConcatAppend(TaskLists(cs[..n]), cs[n].tasks);
      ConcatAppend(RootLists(cs[..n]), KeepIn(cs[n].published, Elems(cs[n].paths)));
      PlusIs(t, cs[n]);
    }
  }

  lemma PlusIs(t: Totals, c: Chunk)
    ensures Plus(t, c) == Totals(t.paths + c.paths, t.failed + c.failed, t.tasks + |c.tasks|,
                                 t.roots + |KeepIn(c.published, Elems(c.paths))|)
  {
  }

  lemma NoLists()
    ensures Sum([]) == Totals([], [], 0, 0) && PathLists([]) == FailedLists([]) == RootLists([]) == []
    ensures TaskLists([]) == [] && Concat<Path>([]) == [] && Concat<Task>([]) == []
  {
  }

  lemma NextLists(cs: seq<Chunk>, n: nat)
    requires n == |cs| - 1
    ensures PathLists(cs) == PathLists(cs[..n]) + [cs[n].paths]
    ensures FailedLists(cs) == FailedLists(cs[..n]) + [cs[n].failed]
    ensures TaskLists(cs) == TaskLists(cs[..n]) + [cs[n].tasks]
    ensures RootLists(cs) == RootLists(cs[..n]) + [KeepIn(cs[n].published, Elems(cs[n].paths))]
  {
    hide *;
  }

  lemma SumAppend(cs: seq<Chunk>, c: Chunk)
    ensures Sum(cs + [c]) == Plus(Sum(cs), c)
  {
    assert (cs + [c])[..|cs|] == cs;
  }

  method CountRoots(receipts: seq<PushReceipt>, ghost roots: set<Path>) returns (n: nat)
    requires forall r :: r in receipts ==> (r.isRoot <==> r.storePath in roots)
    ensures n == |KeepIn(ReceiptPaths(receipts), roots)|
  {
    n := 0;
    for i := 0 to |receipts|
      invariant n == |KeepIn(ReceiptPaths(receipts[..i]), roots)|
    {
      assert ReceiptPaths(receipts[..i + 1]) == ReceiptPaths(receipts[..i]) + [receipts[i].storePath];
      KeepInAppend(ReceiptPaths(receipts[..i]), receipts[i].storePath, roots);
      if receipts[i].isRoot {
        n := n + 1;
      }
    }
    assert receipts[..|receipts|] == receipts;
  }

  datatype ChunkResult =
    | PreparationFailed
    | AllUploadsFailed
    | IndexingFailed
    | ChunkDone(uploaded: nat, roots: nat, failed: seq<Path>)

  /** How a chunk ends. */
  datatype Verdict = NotPrepared | NothingUploaded | NotIndexed | Finished

  function VerdictOfResult(r: ChunkResult): Verdict
  {
    match r
    case PreparationFailed => NotPrepared
    case AllUploadsFailed => NothingUploaded
    case IndexingFailed => NotIndexed
    case ChunkDone(_, _, _) => Finished
  }

  /** The end of a chunk as it follows from the store, the uploads and the index. */
  ghost function VerdictOf(st: Store, universe: set<Path>, chunk: seq<Path>, prepareRefs: bool, uploads: Path -> bool,
                           indexed: bool): Verdict
  {
    if !Prepares(st, universe, chunk, prepareRefs) then NotPrepared
    else
      var g := GraphOf(st, universe, chunk, prepareRefs);
      ChunkGraphIsClosed(st, universe, chunk, prepareRefs, g);
      var up := Succeeding(Flatten(LinksOf(g), chunk), uploads);
      if up == {} then NothingUploaded
      else if CompleteReceipts(LinksOf(g), up, chunk).published != [] && !indexed then NotIndexed
      else Finished
  }

  /** When no upload and no indexing fails, a chunk is finished exactly if it can be prepared. */
  lemma FinishedIffPrepared(st: Store, universe: set<Path>, chunk: seq<Path>, prepareRefs: bool, uploads: Path -> bool)
    requires chunk != [] && forall p :: uploads(p)
    ensures VerdictOf(st, universe, chunk, prepareRefs, uploads, true).Finished? <==>
      Prepares(st, universe, chunk, prepareRefs)
  {
    if Prepares(st, universe, chunk, prepareRefs) {
      var g := GraphOf(st, universe, chunk, prepareRefs);
      ChunkGraphIsClosed(st, universe, chunk, prepareRefs, g);
      TasksOfChunk(LinksOf(g), chunk);
      var t := Flatten(LinksOf(g), chunk)[0];
      assert t in Flatten(LinksOf(g), chunk) && uploads(t.path);
      assert t.path in Succeeding(Flatten(LinksOf(g), chunk), uploads);
    }
  }

  /** Prepares, uploads, gates and indexes one chunk. */
  method PushChunk(st: Store, ghost universe: set<Path>, chunk: seq<Path>, prepareRefs: bool, uploads: Path -> bool,
                   indexed: bool)
    returns (r: ChunkResult, ghost c: Chunk)
    requires FiniteStore(st, universe) && Elems(chunk) <= universe && chunk != []
    ensures VerdictOfResult(r) == VerdictOf(st, universe, chunk, prepareRefs, uploads, indexed)
    ensures r.PreparationFailed? <==> !Prepares(st, universe, chunk, prepareRefs)
    ensures !r.PreparationFailed? ==>
      && GoodChunk(st, universe, prepareRefs, c) && c.paths == chunk
      && c.g == GraphOf(st, universe, chunk, prepareRefs) && c.up == Succeeding(c.tasks, uploads)
    ensures r.AllUploadsFailed? <==> Prepares(st, universe, chunk, prepareRefs) && c.up == {}
    ensures r.IndexingFailed? <==>
      Prepares(st, universe, chunk, prepareRefs) && c.up != {} && c.published != [] && !indexed
    ensures r.ChunkDone? ==>
      && r.uploaded == |c.up| && r.failed == c.failed
      && r.roots == |KeepIn(c.published, Elems(chunk))|
  {
    c := Chunk(chunk, map[], [], {}, [], []);
    var ok, results, objs, g := PrepareChunk(st, universe, chunk, prepareRefs);
    if !ok {
      return PreparationFailed, c;
    }
    ChunkGraphIsClosed(st, universe, chunk, prepareRefs, g);
    ghost var links := LinksOf(g);
    FlattenListsReachable(links, chunk);
    var tasks := FlattenTasks(results, objs, links);
    var byPath, failed, uploaded := UploadTaskSet(tasks, uploads);
    ghost var published := CompleteReceipts(links, byPath.Keys, chunk).published;
    c := Chunk(chunk, g, Plain(tasks), byPath.Keys, failed, published);
    assert |byPath| == |byPath.Keys|;
    assert forall p :: p in byPath ==> byPath[p].storePath == p by { UploadedByPath(tasks, uploads, byPath); }
    if |failed| == |tasks| {
      TasksOfChunk(links, chunk);
      return AllUploadsFailed, c;
    }
    var receipts, excluded := CompleteReceiptsOf(results, byPath, objs, links);
    RootFlags(tasks, uploads, byPath, chunk, links);
    var roots := CountRoots(receipts, Elems(chunk));
    if |receipts| > 0 && !indexed {
      return IndexingFailed, c;
    }
    r := ChunkDone(uploaded, roots, failed);
  }

  lemma TasksOfChunk(g: Links, roots: seq<Path>)
    requires Closed(g) && Elems(roots) <= g.Keys && roots != []
    ensures Flatten(g, roots) != []
  {
    FlattenListsReachable(g, roots);
    ReachesSelf(g, roots[0]);
    assert FromSome(g, roots, roots[0]);
  }

  lemma UploadedByPath(tasks: seq<PreparedTask>, uploads: Path -> bool, byPath: map<Path, PushReceipt>)
    requires byPath.Keys == Succeeding(Plain(tasks), uploads)
    requires forall t :: t in tasks && uploads(t.r.storePath) ==>
      t.r.storePath in byPath && byPath[t.r.storePath] == PushReceipt(t.r.storePath, t.isRoot)
    ensures forall p :: p in byPath ==>
      exists t :: t in tasks && byPath[p] == PushReceipt(p, t.isRoot) && t.r.storePath == p
  {
    forall p | p in byPath
      ensures exists t :: t in tasks && byPath[p] == PushReceipt(p, t.isRoot) && t.r.storePath == p
    {
      var x :| x in Plain(tasks) && uploads(x.path) && x.path == p;
      var i :| 0 <= i < |tasks| && Plain(tasks)[i] == x;
      assert tasks[i] in tasks;
    }
  }

  /** On a result graph whose links avoid the requested paths, the receipts of exactly those are flagged. */
  lemma RootFlags(tasks: seq<PreparedTask>, uploads: Path -> bool, byPath: map<Path, PushReceipt>, roots: seq<Path>,
                  g: Links)
    requires Closed(g) && Elems(roots) <= g.Keys && Plain(tasks) == Flatten(g, roots)
    requires forall p, q :: p in g && q in g[p] ==> q !in roots
    requires byPath.Keys == Succeeding(Plain(tasks), uploads)
    requires forall t :: t in tasks && uploads(t.r.storePath) ==>
      t.r.storePath in byPath && byPath[t.r.storePath] == PushReceipt(t.r.storePath, t.isRoot)
    ensures forall p :: p in byPath ==> (byPath[p].isRoot <==> p in Elems(roots))
  {
    FlattenFlagsRoots(g, roots);
    UploadedByPath(tasks, uploads, byPath);
    forall p | p in byPath
      ensures byPath[p].isRoot <==> p in Elems(roots)
    {
      var t :| t in tasks && byPath[p] == PushReceipt(p, t.isRoot) && t.r.storePath == p;
      var i :| 0 <= i < |tasks| && tasks[i] == t;
      assert Plain(tasks)[i] == Task(p, t.isRoot);
      assert Plain(tasks)[i] in Flatten(g, roots);
    }
  }

  datatype PushOutcome = Aborted(reason: ChunkResult) | Pushed(uploaded: nat, roots: nat, failed: seq<Path>)

  /** What surrounds a run: the store, the outcome of uploads and the index, which may differ from chunk to chunk. */
  datatype Setting = Setting(
    universe: set<Path>,
    prepareRefs: bool,
    stores: nat -> Store,
    uploads: nat -> (Path -> bool),
    indexed: nat -> bool)

  ghost predicate FiniteSetting(e: Setting)
  {
    forall i :: FiniteStore(e.stores(i), e.universe)
  }

  function ChunkCount(paths: seq<Path>): nat
  {
    (|paths| + CHUNK_SIZE - 1) / CHUNK_SIZE
  }

  function ChunkEnd(paths: seq<Path>, k: nat): (r: nat)
    ensures r <= |paths|
  {
    if CHUNK_SIZE * k <= |paths| then CHUNK_SIZE * k else |paths|
  }

  /** The paths of the chunk with this number. */
  function Slice(paths: seq<Path>, k: nat): seq<Path>
  {
    paths[ChunkEnd(paths, k)..ChunkEnd(paths, k + 1)]
  }

  lemma SliceIsChunk(paths: seq<Path>, universe: set<Path>, k: nat)
    requires Elems(paths) <= universe
    ensures Elems(Slice(paths, k)) <= universe
    ensures paths[..ChunkEnd(paths, k + 1)] == paths[..ChunkEnd(paths, k)] + Slice(paths, k)
    ensures k < ChunkCount(paths) <==> CHUNK_SIZE * k < |paths|
    ensures k < ChunkCount(paths) ==> 1 <= |Slice(paths, k)| <= CHUNK_SIZE
  {
    forall p | p in Elems(Slice(paths, k))
      ensures p in universe
    {
      assert p in paths;
      assert p in Elems(paths);
    }
  }

  /** The slices are a hundred paths each, one after the other, and the last one is what is left. */
  lemma SlicesAre(paths: seq<Path>, k: nat)
    requires k < ChunkCount(paths)
    ensures 100 * k < |paths| <= 100 * ChunkCount(paths) < |paths| + 100
    ensures k + 1 < ChunkCount(paths) ==> 100 * k + 100 <= |paths| && Slice(paths, k) == paths[100 * k..100 * k + 100]
    ensures k + 1 == ChunkCount(paths) ==> Slice(paths, k) == paths[100 * k..]
  {
  }

  ghost function VerdictAt(e: Setting, paths: seq<Path>, k: nat): Verdict
  {
    VerdictOf(e.stores(k), e.universe, Slice(paths, k), e.prepareRefs, e.uploads(k), e.indexed(k))
  }

  /** What is known of the chunk with this number. */
  ghost predicate ChunkOfRun(e: Setting, paths: seq<Path>, i: nat, c: Chunk)
  {
    && c.paths == Slice(paths, i)
    && Prepares(e.stores(i), e.universe, c.paths, e.prepareRefs)
    && GoodChunk(e.stores(i), e.universe, e.prepareRefs, c)
    && c.g == GraphOf(e.stores(i), e.universe, c.paths, e.prepareRefs)
    && c.up == Succeeding(c.tasks, e.uploads(i))
  }

  ghost predicate ChunksOfRun(e: Setting, paths: seq<Path>, cs: seq<Chunk>)
  {
    forall i :: 0 <= i < |cs| ==> ChunkOfRun(e, paths, i, cs[i])
  }

  ghost predicate FinishedBefore(e: Setting, paths: seq<Path>, n: nat)
  {
    forall k :: 0 <= k < n ==> VerdictAt(e, paths, k).Finished?
  }

  /** The totals of the chunks so far. */
  ghost predicate Progress(cs: seq<Chunk>, paths: seq<Path>, uploaded: nat, roots: nat, failed: seq<Path>)
  {
    Sum(cs) == Totals(paths, failed, uploaded + |failed|, roots)
  }

  lemma NextChunk(e: Setting, paths: seq<Path>, cs: seq<Chunk>, c: Chunk)
    requires ChunksOfRun(e, paths, cs) && c.paths == Slice(paths, |cs|)
    requires Prepares(e.stores(|cs|), e.universe, c.paths, e.prepareRefs)
    requires GoodChunk(e.stores(|cs|), e.universe, e.prepareRefs, c)
    requires c.g == GraphOf(e.stores(|cs|), e.universe, c.paths, e.prepareRefs)
    requires c.up == Succeeding(c.tasks, e.uploads(|cs|))
    ensures ChunksOfRun(e, paths, cs + [c]) && |c.up| + |c.failed| == |c.tasks|
  {
    assert |c.up| + |c.failed| == |c.tasks|;
    hide Slice, Prepares, GoodChunk, GraphOf, Succeeding;
    assert ChunkOfRun(e, paths, |cs|, c);
  }

  lemma NextTotals(cs: seq<Chunk>, c: Chunk, paths: seq<Path>, uploaded: nat, roots: nat, failed: seq<Path>)
    requires Progress(cs, paths, uploaded, roots, failed)
    requires |c.up| + |c.failed| == |c.tasks|
    ensures Sum(cs + [c]).paths == paths + c.paths
    ensures Progress(cs + [c], paths + c.paths, uploaded + |c.up|, roots + |KeepIn(c.published, Elems(c.paths))|,
                     failed + c.failed)
  {
    SumAppend(cs, c);
  }

  lemma NothingPushed(e: Setting, paths: seq<Path>)
    ensures ChunksOfRun(e, paths, []) && FinishedBefore(e, paths, 0)
    ensures Progress([], paths[..0], 0, 0, []) && Sum([]).paths == [] && ChunkEnd(paths, 0) == 0
  {
  }

  /** The number of the chunk an aborted run ended at: the last one prepared, or the one that could not be. */
  function AbortedAt(reason: ChunkResult, chunks: seq<Chunk>): int
  {
    if reason.PreparationFailed? then |chunks| else |chunks| - 1
  }

  /**
   The chunk loop of a push. It goes through all the paths exactly if every slice of
   them is finished, and otherwise stops at the first slice that is not, for the
   reason that slice gives; chunks already indexed stay so.
   */
  method RunPushTo(e: Setting, filteredPaths: seq<Path>) returns (outcome: PushOutcome, ghost chunks: seq<Chunk>)
    requires FiniteSetting(e) && Elems(filteredPaths) <= e.universe
    ensures ChunksOfRun(e, filteredPaths, chunks)
    ensures Sum(chunks).paths <= filteredPaths
    ensures outcome.Pushed? <==> FinishedBefore(e, filteredPaths, ChunkCount(filteredPaths))
    ensures outcome.Pushed? ==>
      && |chunks| == ChunkCount(filteredPaths)
      && Sum(chunks).paths == filteredPaths
      && outcome.failed == Sum(chunks).failed
      && outcome.uploaded + |outcome.failed| == Sum(chunks).tasks
      && outcome.roots == Sum(chunks).roots
    ensures outcome.Aborted? ==>
      var k := AbortedAt(outcome.reason, chunks);
      && 0 <= k < ChunkCount(filteredPaths) && FinishedBefore(e, filteredPaths, k)
      && VerdictAt(e, filteredPaths, k) == VerdictOfResult(outcome.reason) != Finished
  {
    hide *;
    chunks := [];
    NothingPushed(e, filteredPaths);
    var uploaded: nat, roots: nat, failed := 0, 0, [];
    var i, n := 0, 0;
    while i < |filteredPaths|
      invariant n == |chunks| && i == ChunkEnd(filteredPaths, n)
      invariant n <= ChunkCount(filteredPaths) && FinishedBefore(e, filteredPaths, n)
      invariant ChunksOfRun(e, filteredPaths, chunks)
      invariant Progress(chunks, filteredPaths[..i], uploaded, roots, failed)
      invariant Sum(chunks).paths == filteredPaths[..i]
    {
      NextSlice(e, filteredPaths, n);
      var end := if i + CHUNK_SIZE > |filteredPaths| then |filteredPaths| else i + CHUNK_SIZE;
      var chunk := filteredPaths[i..end];
      var r, c := PushChunk(e.stores(n), e.universe, chunk, e.prepareRefs, e.uploads(n), e.indexed(n));
      if !r.PreparationFailed? {
        NextChunk(e, filteredPaths, chunks, c);
        NextTotals(chunks, c, filteredPaths[..i], uploaded, roots, failed);
        chunks := chunks + [c];
      }
      if !r.ChunkDone? {
        FinishedUpTo(e, filteredPaths, n, r, chunks);
        return Aborted(r), chunks;
      }
      FinishedNext(e, filteredPaths, n, r);
      uploaded, roots, failed := uploaded + r.uploaded, roots + r.roots, failed + r.failed;
      i, n := end, n + 1;
    }
    NoMoreSlices(filteredPaths, n);
    outcome := Pushed(uploaded, roots, failed);
    TotalsAre(chunks, filteredPaths, uploaded, roots, failed);
  }

  /** The slice the loop takes next is the one with the next number. */
  lemma NextSlice(e: Setting, paths: seq<Path>, n: nat)
    requires FiniteSetting(e) && Elems(paths) <= e.universe && ChunkEnd(paths, n) < |paths|
    ensures n < ChunkCount(paths) && FiniteStore(e.stores(n), e.universe)
    ensures
      var i := ChunkEnd(paths, n);
      var end := if i + CHUNK_SIZE > |paths| then |paths| else i + CHUNK_SIZE;
      && i < end == ChunkEnd(paths, n + 1)
      && paths[i..end] == Slice(paths, n)
      && Elems(paths[i..end]) <= e.universe
      && paths[..end] == paths[..i] + paths[i..end]
      && VerdictAt(e, paths, n) ==
           VerdictOf(e.stores(n), e.universe, paths[i..end], e.prepareRefs, e.uploads(n), e.indexed(n))
  {
    hide VerdictOf, Elems;
    SliceIsChunk(paths, e.universe, n);
  }

  lemma FinishedUpTo(e: Setting, paths: seq<Path>, n: nat, r: ChunkResult, cs: seq<Chunk>)
    requires n < ChunkCount(paths) && VerdictAt(e, paths, n) == VerdictOfResult(r) && !r.ChunkDone?
    requires |cs| == if r.PreparationFailed? then n else n + 1
    ensures AbortedAt(r, cs) == n
    ensures !FinishedBefore(e, paths, ChunkCount(paths)) && VerdictOfResult(r) != Finished
  {
    hide VerdictAt;
  }

  lemma FinishedNext(e: Setting, paths: seq<Path>, n: nat, r: ChunkResult)
    requires FinishedBefore(e, paths, n) && VerdictAt(e, paths, n) == VerdictOfResult(r) && r.ChunkDone?
    ensures FinishedBefore(e, paths, n + 1)
  {
    hide VerdictAt;
  }

  lemma NoMoreSlices(paths: seq<Path>, n: nat)
    requires n <= ChunkCount(paths) && ChunkEnd(paths, n) >= |paths|
    ensures n == ChunkCount(paths) && paths[..ChunkEnd(paths, n)] == paths
  {
  }

  lemma TotalsAre(cs: seq<Chunk>, paths: seq<Path>, uploaded: nat, roots: nat, failed: seq<Path>)
    requires Progress(cs, paths, uploaded, roots, failed)
    ensures Sum(cs).paths == paths && Sum(cs).failed == failed
    ensures Sum(cs).tasks == uploaded + |failed| && Sum(cs).roots == roots
  {
    hide Sum;
  }
}
