/**
 The preparation code over mutable results: each method does what one part of
 the closure walk does to the visited set and to the result objects, and is
 proved against the functions of ReferenceWalk.
 */
module Preparation {
  import opened Sequences
  import opened Reachability
  import opened ReferenceWalk
  import opened PreparedClosure

  class Result {
    const storePath: Path
    var missingRefs: seq<Path>
    var missingRefResults: seq<Result>

    constructor (storePath: Path)
      ensures this.storePath == storePath && missingRefs == [] && missingRefResults == []
    {
      this.storePath := storePath;
      missingRefs := [];
      missingRefResults := [];
    }
  }

  /** The paths already taken up by the walk, one set shared by all levels. */
  class Visited {
    var paths: set<Path>

    constructor (paths: set<Path>)
      ensures this.paths == paths
    {
      this.paths := paths;
    }
  }

  function PathsOf(rs: seq<Result>): (ps: seq<Path>)
    ensures |ps| == |rs| && forall i :: 0 <= i < |rs| ==> ps[i] == rs[i].storePath
  {
    seq(|rs|, i requires 0 <= i < |rs| => rs[i].storePath)
  }

  /** One result object shows one node of a graph, with its links drawn from objs. */
  ghost predicate ShowsNode(r: Result, node: Node, objs: set<Result>)
    reads r
  {
    r.missingRefs == node.missing && PathsOf(r.missingRefResults) == node.links && Elems(r.missingRefResults) <= objs
  }

  /** The objects represent the graph: results for each of its paths and no other. */
  ghost predicate Shows(objs: set<Result>, g: Graph)
    reads objs
  {
    && (forall r :: r in objs ==> r.storePath in g && ShowsNode(r, g[r.storePath], objs))
    && (forall p :: p in g ==> exists r :: r in objs && r.storePath == p)
  }

  /** No path has two results. */
  ghost predicate OneEach(objs: set<Result>)
  {
    forall a, b :: a in objs && b in objs && a.storePath == b.storePath ==> a == b
  }

  /** No path has two results, unless it is one of those asked for, whose results are tops. */
  ghost predicate OneEachBelow(objs: set<Result>, tops: set<Result>)
  {
    && OneEach(objs - tops)
    && forall a, t :: a in objs - tops && t in tops ==> a.storePath != t.storePath
  }

  lemma OneEachWithTops(objs: set<Result>, results: seq<Result>)
    requires OneEachBelow(objs, Elems(results)) && NoDup(PathsOf(results))
    ensures OneEach(objs)
  {
    forall a, b | a in objs && b in objs && a.storePath == b.storePath
      ensures a == b
    {
      if a in results && b in results {
        var i :| 0 <= i < |results| && results[i] == a;
        var j :| 0 <= j < |results| && results[j] == b;
        assert PathsOf(results)[i] == PathsOf(results)[j];
      } else {
        assert a in Elems(results) <==> a in results;
        assert b in Elems(results) <==> b in results;
      }
    }
  }

  lemma OneEachAddsTops(below: set<Result>, tops: set<Result>)
    requires OneEach(below) && forall a, t :: a in below && t in tops ==> a.storePath != t.storePath
    ensures OneEachBelow(below + tops, tops)
  {
  }

  /** Takes up the paths not visited before and marks them visited. */
  method MarkNewPaths(refPaths: seq<Path>, visited: Visited) returns (newPaths: seq<Path>)
    modifies visited
    ensures newPaths == Unseen(refPaths, old(visited.paths))
    ensures FirstOccurrences(refPaths, old(visited.paths), newPaths)
    ensures visited.paths == old(visited.paths) + Elems(newPaths)
  {
    newPaths := [];
    assert Unseen(refPaths[..0], visited.paths) == [] && Elems(newPaths) == {};
    hide *;
    UnseenIs(refPaths, visited.paths);
    for i := 0 to |refPaths|
      invariant newPaths == Unseen(refPaths[..i], old(visited.paths))
      invariant visited.paths == old(visited.paths) + Elems(newPaths)
    {
      var p := refPaths[i];
      TakeNext(refPaths, i);
      UnseenNext(refPaths[..i], p, old(visited.paths));
      if p !in visited.paths {
        visited.paths := visited.paths + {p};
        newPaths := newPaths + [p];
      }
    }
    assert refPaths[..|refPaths|] == refPaths;
  }

  method GatherPathInfos(st: Store, paths: seq<Path>) returns (ok: bool, infos: map<Path, seq<Path>>)
    ensures ok <==> forall p :: p in paths ==> st.info(p).Some?
    ensures ok ==> infos.Keys == Elems(paths) && forall p :: p in infos ==> infos[p] == Refs(st, p)
  {
    infos := map[];
    for i := 0 to |paths|
      invariant forall p :: p in paths[..i] ==> st.info(p).Some?
      invariant infos.Keys == Elems(paths[..i]) && forall p :: p in infos ==> infos[p] == Refs(st, p)
    {
      TakeNext(paths, i);
      var info := st.info(paths[i]);
      if info.None? {
        assert paths[i] in paths;
        return false, map[];
      }
      infos := infos[paths[i] := info.value];
    }
    assert paths[..|paths|] == paths;
    ok := true;
  }

  /** Collects the hash parts of all references, in any order over the infos. */
  method CollectReferenceHashes(st: Store, infos: map<Path, seq<Path>>) returns (hashes: seq<Hash>)
    requires forall p :: p in infos ==> infos[p] == Refs(st, p)
    ensures Elems(hashes) == LevelHashes(st, infos.Keys) && NoDup(hashes)
  {
    hashes := [];
    var todo := infos.Keys;
    while todo != {}
      invariant todo <= infos.Keys
      invariant NoDup(hashes) && Elems(hashes) == LevelHashes(st, infos.Keys - todo)
    {
      var p :| p in todo;
      var refs := infos[p];
      ghost var before := Elems(hashes);
      for i := 0 to |refs|
        invariant NoDup(hashes)
        invariant Elems(hashes) == before + set j | 0 <= j < i && st.hashOf(refs[j]).Some? :: st.hashOf(refs[j]).value
      {
        var hash := st.hashOf(refs[i]);
        if hash.Some? && hash.value !in hashes {
          assert Elems(hashes + [hash.value]) == Elems(hashes) + {hash.value};
          hashes := hashes + [hash.value];
        } else if hash.Some? {
          assert hash.value in Elems(hashes);
        }
      }
      HashesOfOneMore(st, infos.Keys - todo, p);
      todo := todo - {p};
      assert infos.Keys - todo == infos.Keys - (todo + {p}) + {p};
    }
  }

  lemma HashesOfOneMore(st: Store, level: set<Path>, p: Path)
    ensures LevelHashes(st, level + {p}) == LevelHashes(st, level) +
      set j | 0 <= j < |Refs(st, p)| && st.hashOf(Refs(st, p)[j]).Some? :: st.hashOf(Refs(st, p)[j]).value
  {
    var refs := Refs(st, p);
    var more := set j | 0 <= j < |refs| && st.hashOf(refs[j]).Some? :: st.hashOf(refs[j]).value;
    forall h | h in LevelHashes(st, level + {p})
      ensures h in LevelHashes(st, level) + more
    {
      var x, q :| x in level + {p} && q in Refs(st, x) && st.hashOf(q).Some? && h == st.hashOf(q).value;
      if x !in level {
        var j :| 0 <= j < |refs| && refs[j] == q;
        assert h in more;
      }
    }
  }

  /** missing holds, in place, the references whose name parses and whose hash is not mapped to true. */
  ghost predicate KeepsNotHeld(st: Store, references: seq<Path>, existsMap: map<Hash, bool>, missing: seq<Path>)
  {
    exists at :: Picks(references, at, missing)
      && forall i: nat :: i in at <==> i < |references| && NotHeld(st, existsMap, references[i])
  }

  ghost predicate NotHeld(st: Store, existsMap: map<Hash, bool>, p: Path)
  {
    match st.hashOf(p)
    case None => false
    case Some(hash) => hash !in existsMap || !existsMap[hash]
  }

  lemma MissingRefsKeeps(st: Store, references: seq<Path>, existsMap: map<Hash, bool>)
    ensures existsMap != map[] ==>
      KeepsNotHeld(st, references, existsMap, MissingRefs(st, references, existsMap))
  {
    var absent := Absent(st, references, existsMap);
    assert forall i: nat :: i < |references| ==> (references[i] in absent <==> NotHeld(st, existsMap, references[i]));
    hide Absent, NotHeld, KeepIn, Picks;
    var at := KeepInPicks(references, absent);
  }

  method ComputeMissingRefs(st: Store, references: seq<Path>, existsMap: map<Hash, bool>) returns (missing: seq<Path>)
    ensures missing == MissingRefs(st, references, existsMap)
    ensures existsMap == map[] ==> missing == references
    ensures existsMap != map[] ==> KeepsNotHeld(st, references, existsMap, missing)
  {
    MissingRefsKeeps(st, references, existsMap);
    hide KeepsNotHeld;
    if |existsMap| == 0 {
      return references;
    }
    missing := [];
    ghost var absent := Absent(st, references, existsMap);
    for i := 0 to |references|
      invariant missing == KeepIn(references[..i], absent)
    {
      var ref := references[i];
      TakeNext(references, i);
      KeepInAppend(references[..i], ref, absent);
      var hash := st.hashOf(ref);
      if hash.Some? && !(hash.value in existsMap && existsMap[hash.value]) {
        missing := missing + [ref];
      }
    }
    assert references[..|references|] == references;
  }

  /** Writes the artifacts of each path, giving one new result per position. */
  method WriteNars(st: Store, paths: seq<Path>) returns (ok: bool, results: seq<Result>)
    ensures ok <==> forall p :: p in paths ==> st.writable(p)
    ensures ok ==> PathsOf(results) == paths && NoDup(results) && fresh(Elems(results))
    ensures ok ==> forall r :: r in results ==> r.missingRefs == [] && r.missingRefResults == []
  {
    results := [];
    for i := 0 to |paths|
      invariant forall p :: p in paths[..i] ==> st.writable(p)
      invariant PathsOf(results) == paths[..i] && NoDup(results) && fresh(Elems(results))
      invariant forall r :: r in results ==> r.missingRefs == [] && r.missingRefResults == []
    {
      if !st.writable(paths[i]) {
        assert paths[i] in paths;
        return false, [];
      }
      var r := new Result(paths[i]);
      assert forall x :: x in results ==> x in Elems(results);
      assert forall x :: x in Elems(results + [r]) ==> x in Elems(results) || x == r;
      results := results + [r];
    }
    assert paths[..|paths|] == paths;
    ok := true;
  }

  /** Records on every result which of its references are missing. */
  method RecordMissing(st: Store, results: seq<Result>, infos: map<Path, seq<Path>>, existsMap: map<Hash, bool>)
    requires forall r :: r in results ==> r.storePath in infos && infos[r.storePath] == Refs(st, r.storePath)
    modifies Elems(results)`missingRefs
    ensures forall r :: r in results ==> r.missingRefs == MissingRefs(st, Refs(st, r.storePath), existsMap)
  {
    for i := 0 to |results|
      invariant forall j :: 0 <= j < i ==>
        results[j].missingRefs == MissingRefs(st, Refs(st, results[j].storePath), existsMap)
    {
      var missing := ComputeMissingRefs(st, infos[results[i].storePath], existsMap);
      results[i].missingRefs := missing;
    }
  }

  /** Appends to allMissing the references in refs it does not list yet. */
  method AddMissing(refs: seq<Path>, allMissing: seq<Path>, seenMissing: set<Path>)
    returns (all: seq<Path>, seen: set<Path>)
    requires seenMissing == Elems(allMissing)
    ensures all == allMissing + Unseen(refs, Elems(allMissing))
    ensures seen == Elems(all)
  {
    all, seen := allMissing, seenMissing;
    for k := 0 to |refs|
      invariant all == allMissing + Unseen(refs[..k], Elems(allMissing))
      invariant seen == Elems(all)
    {
      TakeNext(refs, k);
      UnseenAppend(refs[..k], refs[k], Elems(allMissing));
      assert refs[k] in all <==> refs[k] in Elems(all);
      if refs[k] !in seen {
        seen := seen + {refs[k]};
        assert Elems(all + [refs[k]]) == Elems(all) + {refs[k]};
        all := all + [refs[k]];
      }
    }
    assert refs[..|refs|] == refs;
  }

  /** The missing references of all results, each listed once. */
  method CollectMissing(st: Store, results: seq<Result>, ghost d: nat, ghost level: set<Path>)
    returns (allMissing: seq<Path>)
    requires forall r :: r in results ==> r.missingRefs == MissingAt(st, d, level, r.storePath)
    ensures allMissing == AllMissing(st, d, level, PathsOf(results))
  {
    allMissing := [];
    var seenMissing: set<Path> := {};
    for i := 0 to |results|
      invariant allMissing == AllMissing(st, d, level, PathsOf(results[..i]))
      invariant seenMissing == Elems(allMissing)
    {
      ghost var paths := PathsOf(results[..i + 1]);
      assert paths[..i] == PathsOf(results[..i]);
      allMissing, seenMissing := AddMissing(results[i].missingRefs, allMissing, seenMissing);
    }
    assert results[..|results|] == results;
  }

  /** The sub-results of the references that have one, in order. */
  method LinksFor(refs: seq<Path>, subResultMap: map<Path, Result>) returns (linked: seq<Result>)
    requires forall p :: p in subResultMap ==> subResultMap[p].storePath == p
    ensures PathsOf(linked) == KeepIn(refs, subResultMap.Keys)
    ensures Elems(linked) <= subResultMap.Values
    ensures KeptAt(refs, subResultMap.Keys, PathsOf(linked))
  {
    KeepInIs(refs, subResultMap.Keys);
    hide KeptAt;
    linked := [];
    for k := 0 to |refs|
      invariant PathsOf(linked) == KeepIn(refs[..k], subResultMap.Keys)
      invariant Elems(linked) <= subResultMap.Values
    {
      TakeNext(refs, k);
      KeepInAppend(refs[..k], refs[k], subResultMap.Keys);
      if refs[k] in subResultMap {
        linked := linked + [subResultMap[refs[k]]];
      }
    }
    assert refs[..|refs|] == refs;
  }

  /** Links under every result the prepared results of its missing references. */
  method LinkResults(results: seq<Result>, subResults: seq<Result>)
    modifies Elems(results)`missingRefResults
    ensures forall r :: r in results ==>
      && PathsOf(r.missingRefResults) == KeepIn(r.missingRefs, Elems(PathsOf(subResults)))
      && Elems(r.missingRefResults) <= Elems(subResults)
  {
    var subResultMap: map<Path, Result> := map[];
    for i := 0 to |subResults|
      invariant subResultMap.Keys == Elems(PathsOf(subResults)[..i])
      invariant forall p :: p in subResultMap ==> subResultMap[p] in subResults && subResultMap[p].storePath == p
    {
      TakeNext(PathsOf(subResults), i);
      subResultMap := subResultMap[subResults[i].storePath := subResults[i]];
    }
    assert PathsOf(subResults)[..|subResults|] == PathsOf(subResults);
    for i := 0 to |results|
      invariant forall j :: 0 <= j < i ==>
        && PathsOf(results[j].missingRefResults) == KeepIn(results[j].missingRefs, subResultMap.Keys)
        && Elems(results[j].missingRefResults) <= subResultMap.Values
    {
      var linked := LinksFor(results[i].missingRefs, subResultMap);
      results[i].missingRefResults := linked;
    }
  }

  // ---- the walk -----------------------------------------------------------

  /** Gathers, checks and writes one level of paths, and says what it is missing. */
  method PrepareLevel(st: Store, d: nat, paths: seq<Path>)
    returns (ok: bool, results: seq<Result>, allMissing: seq<Path>)
    ensures ok <==> forall p :: p in paths ==> Preparable(st, p)
    ensures ok ==> PathsOf(results) == paths && NoDup(results) && fresh(Elems(results))
    ensures ok ==> forall r :: r in results ==>
      r.missingRefs == MissingAt(st, d, Elems(paths), r.storePath) && r.missingRefResults == []
    ensures ok ==> allMissing == AllMissing(st, d, Elems(paths), paths)
  {
    results, allMissing := [], [];
    var infos;
    ok, infos := GatherPathInfos(st, paths);
    if !ok {
      return;
    }
    var hashes := CollectReferenceHashes(st, infos);
    var existsMap := CheckRefBatch(st, d, Elems(hashes));
    ok, results := WriteNars(st, paths);
    if !ok {
      return;
    }
    assert forall r :: r in results ==> r.storePath in PathsOf(results) && r in Elems(results);
    RecordMissing(st, results, infos, existsMap);
    allMissing := CollectMissing(st, results, d, Elems(paths));
  }

  /** The results of one level linked to the results below it show the stacked graph. */
  lemma ShowsLevel(st: Store, d: nat, results: seq<Result>, subResults: seq<Result>, below: set<Result>, forest: Graph)
    requires Shows(below, forest) && Elems(subResults) <= below
    requires forall p :: p in forest ==> p !in PathsOf(results)
    requires forall r :: r in results ==>
      && r.missingRefs == MissingAt(st, d, Elems(PathsOf(results)), r.storePath)
      && PathsOf(r.missingRefResults) == KeepIn(r.missingRefs, Elems(PathsOf(subResults)))
      && Elems(r.missingRefResults) <= Elems(subResults)
    ensures Shows(below + Elems(results), forest + LevelNodes(st, d, PathsOf(results), PathsOf(subResults)))
  {
    var tops := PathsOf(results);
    var g := forest + LevelNodes(st, d, tops, PathsOf(subResults));
    var objs := below + Elems(results);
    forall r | r in objs
      ensures r.storePath in g && ShowsNode(r, g[r.storePath], objs)
    {
      if r in results {
        assert r.storePath in tops;
        assert r.storePath in Elems(tops);
      } else {
        assert r.storePath in forest;
        assert r.storePath !in Elems(tops);
      }
    }
    forall p | p in g
      ensures exists r :: r in objs && r.storePath == p
    {
      if p in forest {
        var r :| r in below && r.storePath == p;
        assert r in objs;
      } else {
        assert p in tops;
        var i :| 0 <= i < |tops| && tops[i] == p;
        assert results[i] in objs;
      }
    }
  }

  /** Prepares the new paths among refPaths, then recursively what they are missing. */
  method PrepareRefsRecursive(st: Store, ghost universe: set<Path>, d: nat, refPaths: seq<Path>, visited: Visited)
    returns (ok: bool, results: seq<Result>, ghost objs: set<Result>)
    requires FiniteStore(st, universe) && Elems(refPaths) <= universe
    modifies visited
    ensures ok <==> Walk(st, universe, d, refPaths, old(visited.paths)).Walked?
    ensures ok ==>
      && PathsOf(results) == Walk(st, universe, d, refPaths, old(visited.paths)).tops
      && Shows(objs, Walk(st, universe, d, refPaths, old(visited.paths)).forest)
      && Elems(results) <= objs && fresh(objs)
    ensures ok ==> OneEach(objs)
    ensures ok ==> visited.paths == old(visited.paths) + Walk(st, universe, d, refPaths, old(visited.paths)).forest.Keys
    decreases universe - visited.paths, 1
  {
    hide *;
    ghost var before := visited.paths;
    var newPaths := MarkNewPaths(refPaths, visited);
    WalkEnds(st, universe, d, refPaths, before, newPaths);
    if |newPaths| == 0 {
      NothingShown();
      return true, [], {};
    }
    ok, results, objs := PrepareNewPaths(st, universe, d, d + 1, newPaths, visited);
    if forall p :: p in newPaths ==> Preparable(st, p) {
      WalkStep(st, universe, d, refPaths, before, newPaths);
    }
  }

  /** Prepares one level of paths just marked, and all below it. */
  method PrepareNewPaths(st: Store, ghost universe: set<Path>, d: nat, next: nat, newPaths: seq<Path>, visited: Visited)
    returns (ok: bool, results: seq<Result>, ghost objs: set<Result>)
    requires next == d + 1 && FiniteStore(st, universe) && NoDup(newPaths)
    requires Elems(newPaths) <= universe && Elems(newPaths) <= visited.paths
    modifies visited
    ensures Elems(AllMissing(st, d, Elems(newPaths), newPaths)) <= universe
    ensures
      var below := Walk(st, universe, next, AllMissing(st, d, Elems(newPaths), newPaths), old(visited.paths));
      && (ok <==> below.Walked? && forall p :: p in newPaths ==> Preparable(st, p))
      && (ok ==>
            && PathsOf(results) == newPaths
            && Shows(objs, below.forest + LevelNodes(st, d, newPaths, below.tops))
            && visited.paths == old(visited.paths) + below.forest.Keys)
    ensures ok ==> Elems(results) <= objs && fresh(objs) && OneEach(objs)
    decreases universe - visited.paths, 3
  {
    AllMissingInStore(st, universe, d, Elems(newPaths), newPaths);
    hide *;
    var allMissing;
    ok, results, allMissing := PrepareLevel(st, d, newPaths);
    objs := {};
    if ok {
      ok, objs := PrepareBelow(st, universe, d, next, newPaths, results, allMissing, visited);
      if ok {
        OneEachWithTops(objs, results);
      }
    }
  }

  lemma NothingShown()
    ensures Shows({}, map[]) && OneEach({}) && PathsOf([]) == [] && Elems<Result>([]) == {} && Elems<Path>([]) == {}
  {
  }

  /** What the walk comes to when there is nothing new, or something that cannot be prepared. */
  lemma WalkEnds(st: Store, universe: set<Path>, d: nat, refPaths: seq<Path>, visited: set<Path>, tops: seq<Path>)
    requires FiniteStore(st, universe) && Elems(refPaths) <= universe && tops == Unseen(refPaths, visited)
    ensures tops == [] ==> Walk(st, universe, d, refPaths, visited) == Walked([], map[])
    ensures !(forall p :: p in tops ==> Preparable(st, p)) ==> Walk(st, universe, d, refPaths, visited).WalkFailed?
    ensures tops != [] ==> universe - (visited + Elems(tops)) < universe - visited
  {
    if tops != [] {
      assert tops[0] in Elems(tops);
    }
  }

  /** Prepares what a level is missing and links it under the level's results. */
  method PrepareBelow(st: Store, ghost universe: set<Path>, ghost d: nat, next: nat, ghost paths: seq<Path>,
                      results: seq<Result>, allMissing: seq<Path>, visited: Visited)
    returns (ok: bool, ghost objs: set<Result>)
    requires next == d + 1 && FiniteStore(st, universe) && Elems(allMissing) <= universe
    requires allMissing == AllMissing(st, d, Elems(paths), paths)
    requires PathsOf(results) == paths && Elems(paths) <= visited.paths
    requires forall r :: r in results ==>
      r.missingRefs == MissingAt(st, d, Elems(paths), r.storePath) && r.missingRefResults == []
    modifies visited, Elems(results)`missingRefResults
    ensures ok <==> Walk(st, universe, next, allMissing, old(visited.paths)).Walked?
    ensures ok ==>
      var below := Walk(st, universe, next, allMissing, old(visited.paths));
      Shows(objs, below.forest + LevelNodes(st, d, paths, below.tops))
    ensures ok ==> Elems(results) <= objs && fresh(objs - Elems(results)) && OneEachBelow(objs, Elems(results))
    ensures ok ==>
      visited.paths == old(visited.paths) + Walk(st, universe, next, allMissing, old(visited.paths)).forest.Keys
    decreases universe - visited.paths, 2
  {
    assert forall r :: r in Elems(results) <==> r in results;
    hide *;
    ghost var w := Walk(st, universe, next, allMissing, visited.paths);
    var subResults: seq<Result> := [];
    ghost var below := {};
    ok := true;
    if |allMissing| > 0 {
      ok, subResults, below := PrepareRefsRecursive(st, universe, next, allMissing, visited);
      if !ok {
        return false, {};
      }
      assert below !! Elems(results);
      LinkResults(results, subResults);
    } else {
      NothingBelow(st, universe, next, visited.paths);
      NothingShown();
      NothingLinked(results);
    }
    objs := below + Elems(results);
    LevelIsShown(st, universe, d, w, results, subResults, below, allMissing, old(visited.paths));
  }

  /** The results of one level and all below show the stacked graph, no path below twice. */
  lemma LevelIsShown(st: Store, universe: set<Path>, d: nat, w: Walked, results: seq<Result>, subResults: seq<Result>,
                     below: set<Result>, allMissing: seq<Path>, visited: set<Path>)
    requires FiniteStore(st, universe) && Elems(allMissing) <= universe && Elems(PathsOf(results)) <= visited
    requires w == Walk(st, universe, d + 1, allMissing, visited) && w.Walked?
    requires Shows(below, w.forest) && OneEach(below) && Elems(subResults) <= below && PathsOf(subResults) == w.tops
    requires forall r :: r in results ==>
      && r.missingRefs == MissingAt(st, d, Elems(PathsOf(results)), r.storePath)
      && PathsOf(r.missingRefResults) == KeepIn(r.missingRefs, Elems(PathsOf(subResults)))
      && Elems(r.missingRefResults) <= Elems(subResults)
    ensures Shows(below + Elems(results), w.forest + LevelNodes(st, d, PathsOf(results), w.tops))
    ensures OneEachBelow(below + Elems(results), Elems(results))
  {
    hide *;
    WalkIsApart(st, universe, d + 1, allMissing, visited, PathsOf(results));
    ShowsApart(below, w.forest, results);
    OneEachAddsTops(below, Elems(results));
    ShowsLevel(st, d, results, subResults, below, w.forest);
  }

  lemma NothingLinked(results: seq<Result>)
    ensures forall r :: r in results ==> KeepIn(r.missingRefs, {}) == []
  {
    forall r | r in results
      ensures KeepIn(r.missingRefs, {}) == []
    {
      KeepInNone(r.missingRefs);
    }
  }

  lemma NothingBelow(st: Store, universe: set<Path>, d: nat, visited: set<Path>)
    requires FiniteStore(st, universe) && Elems<Path>([]) <= universe
    ensures Walk(st, universe, d, [], visited) == Walked([], map[])
  {
  }

  /** The walk finds no path that was visited before. */
  lemma WalkIsApart(st: Store, universe: set<Path>, d: nat, refPaths: seq<Path>, visited: set<Path>, paths: seq<Path>)
    requires FiniteStore(st, universe) && Elems(refPaths) <= universe && Elems(paths) <= visited
    requires Walk(st, universe, d, refPaths, visited).Walked?
    ensures forall p :: p in Walk(st, universe, d, refPaths, visited).forest ==> p !in paths
  {
    WalkLevelled(st, universe, d, refPaths, visited);
    hide Walk;
    assert forall p :: p in paths ==> p in Elems(paths);
  }

  lemma ShowsApart(below: set<Result>, forest: Graph, results: seq<Result>)
    requires Shows(below, forest) && forall p :: p in forest ==> p !in PathsOf(results)
    ensures forall a, t :: a in below && t in Elems(results) ==> a.storePath != t.storePath
  {
    forall a, t | a in below && t in Elems(results)
      ensures a.storePath != t.storePath
    {
      assert t.storePath in PathsOf(results);
    }
  }

  // ---- the two entry points -------------------------------------------------

  /** The graph of a preparation that does not follow missing references. */
  function RootsOnly(st: Store, roots: seq<Path>): Graph
  {
    LevelNodes(st, 0, roots, [])
  }

  /** Repeated roots ask for nothing more than one of them does. */
  lemma {:induction false} AllMissingOfDistinct(st: Store, d: nat, level: set<Path>, paths: seq<Path>)
    ensures AllMissing(st, d, level, paths) == AllMissing(st, d, level, Unseen(paths, {}))
  {
    hide *;
    if paths == [] {
      NothingIsDistinct(st, d, level);
    } else {
      var n := |paths| - 1;
      AllMissingOfDistinct(st, d, level, paths[..n]);
      DistinctAndOneMore(st, d, level, paths[..n], Unseen(paths[..n], {}), paths[n]);
      assert paths == paths[..n] + [paths[n]];
    }
  }

  lemma NothingIsDistinct(st: Store, d: nat, level: set<Path>)
    ensures AllMissing(st, d, level, []) == AllMissing(st, d, level, Unseen([], {})) == []
  {
    hide MissingAt;
    assert Unseen<Path>([], {}) == [];
  }

  lemma DistinctAndOneMore(st: Store, d: nat, level: set<Path>, paths: seq<Path>, front: seq<Path>, p: Path)
    requires front == Unseen(paths, {}) && AllMissing(st, d, level, paths) == AllMissing(st, d, level, front)
    ensures AllMissing(st, d, level, paths + [p]) == AllMissing(st, d, level, Unseen(paths + [p], {}))
  {
    hide *;
    UnseenAppend(paths, p, {});
    AllMissingAppend(st, d, level, paths, p);
    if p in front {
      NothingNewMissing(st, d, level, front, p);
    } else {
      AllMissingAppend(st, d, level, front, p);
    }
  }

  lemma AllMissingAppend(st: Store, d: nat, level: set<Path>, paths: seq<Path>, p: Path)
    ensures AllMissing(st, d, level, paths + [p]) ==
            AllMissing(st, d, level, paths) + Unseen(MissingAt(st, d, level, p), Elems(AllMissing(st, d, level, paths)))
  {
    hide Unseen, MissingAt, Elems;
    assert (paths + [p])[..|paths|] == paths;
  }

  lemma NothingNewMissing(st: Store, d: nat, level: set<Path>, paths: seq<Path>, p: Path)
    requires p in paths
    ensures Unseen(MissingAt(st, d, level, p), Elems(AllMissing(st, d, level, paths))) == []
  {
    var rest := AllMissing(st, d, level, paths);
    AllMissingElements(st, d, level, paths);
    hide Unseen, MissingAt, AllMissing;
    assert forall q :: q in MissingAt(st, d, level, p) ==> q in rest;
    NothingUnseen(MissingAt(st, d, level, p), Elems(rest));
  }

  lemma {:induction false} NothingUnseen(s: seq<Path>, seen: set<Path>)
    requires Elems(s) <= seen
    ensures Unseen(s, seen) == []
  {
    if s != [] {
      assert s[|s| - 1] in Elems(s);
      NothingUnseen(s[..|s| - 1], seen);
    }
  }

  /** The walk below the roots is the rest of the walk that starts at them. */
  lemma PreparedBelowRoots(st: Store, universe: set<Path>, roots: seq<Path>)
    requires FiniteStore(st, universe) && Elems(roots) <= universe
    requires forall p :: p in roots ==> Preparable(st, p)
    ensures Elems(AllMissing(st, 0, Elems(roots), roots)) <= universe
    ensures
      var below := Walk(st, universe, 1, AllMissing(st, 0, Elems(roots), roots), Elems(roots));
      var w := Prepared(st, universe, roots);
      && (w.Walked? <==> below.Walked?)
      && (w.Walked? ==> w.forest == below.forest + LevelNodes(st, 0, roots, below.tops))
  {
    var tops := Unseen(roots, {});
    assert Elems(tops) == Elems(roots);
    assert {} + Elems(tops) == Elems(roots);
    assert forall p :: p in tops ==> p in Elems(roots);
    AllMissingOfDistinct(st, 0, Elems(roots), roots);
    WalkStep(st, universe, 0, roots, {}, tops);
  }

  lemma UnpreparableRootFails(st: Store, universe: set<Path>, roots: seq<Path>, p: Path)
    requires FiniteStore(st, universe) && Elems(roots) <= universe
    requires p in roots && !Preparable(st, p)
    ensures Prepared(st, universe, roots).WalkFailed?
  {
    assert p in Elems(Unseen(roots, {}));
  }

  lemma ShowsRootsOnly(st: Store, results: seq<Result>)
    requires forall r :: r in results ==>
      r.missingRefs == MissingAt(st, 0, Elems(PathsOf(results)), r.storePath) && r.missingRefResults == []
    ensures Shows(Elems(results), RootsOnly(st, PathsOf(results)))
  {
    var g := RootsOnly(st, PathsOf(results));
    assert Elems<Path>([]) == {};
    forall r | r in results
      ensures r.storePath in g && ShowsNode(r, g[r.storePath], Elems(results))
    {
      assert r.storePath in PathsOf(results);
      assert PathsOf(r.missingRefResults) == [] && Elems(r.missingRefResults) == {};
      KeepInNone(r.missingRefs);
    }
    forall p | p in g
      ensures exists r :: r in Elems(results) && r.storePath == p
    {
      var i :| 0 <= i < |results| && PathsOf(results)[i] == p;
      assert results[i] in Elems(results);
    }
  }

  /** Prepares several paths together. */
  method PrepareBatch(st: Store, ghost universe: set<Path>, storePaths: seq<Path>, prepareMissingRefs: bool)
    returns (ok: bool, results: seq<Result>, ghost objs: set<Result>)
    requires FiniteStore(st, universe) && Elems(storePaths) <= universe
    ensures prepareMissingRefs ==> (ok <==> Prepared(st, universe, storePaths).Walked?)
    ensures prepareMissingRefs && ok ==> Shows(objs, Prepared(st, universe, storePaths).forest)
    ensures !prepareMissingRefs ==> (ok <==> forall p :: p in storePaths ==> Preparable(st, p))
    ensures !prepareMissingRefs && ok ==> Shows(objs, RootsOnly(st, storePaths))
    ensures ok ==> PathsOf(results) == storePaths && Elems(results) <= objs && fresh(objs)
    ensures ok ==> OneEachBelow(objs, Elems(results))
  {
    var allMissing;
    ok, results, allMissing := PrepareLevel(st, 0, storePaths);
    objs := {};
    if !ok {
      ghost var p :| p in storePaths && !Preparable(st, p);
      UnpreparableRootFails(st, universe, storePaths, p);
    } else if !prepareMissingRefs {
      objs := Elems(results);
      ShowsRootsOnly(st, results);
    } else {
      ok, objs := PrepareBatchBelow(st, universe, storePaths, results, allMissing);
    }
  }

  /** Prepares what a batch is missing, with all of its own paths visited. */
  method PrepareBatchBelow(st: Store, ghost universe: set<Path>, storePaths: seq<Path>, results: seq<Result>,
                           allMissing: seq<Path>)
    returns (ok: bool, ghost objs: set<Result>)
    requires FiniteStore(st, universe) && Elems(storePaths) <= universe
    requires forall p :: p in storePaths ==> Preparable(st, p)
    requires allMissing == AllMissing(st, 0, Elems(storePaths), storePaths) && PathsOf(results) == storePaths
    requires forall r :: r in results ==>
      r.missingRefs == MissingAt(st, 0, Elems(storePaths), r.storePath) && r.missingRefResults == []
    modifies Elems(results)`missingRefResults
    ensures ok <==> Prepared(st, universe, storePaths).Walked?
    ensures ok ==> Shows(objs, Prepared(st, universe, storePaths).forest)
    ensures ok ==> Elems(results) <= objs && fresh(objs - Elems(results)) && OneEachBelow(objs, Elems(results))
  {
    AllMissingInStore(st, universe, 0, Elems(storePaths), storePaths);
    var visited := new Visited(Elems(storePaths));
    ok, objs := PrepareBelow(st, universe, 0, 1, storePaths, results, allMissing, visited);
    PreparedBelowRoots(st, universe, storePaths);
  }

  /** One path with the results of the walk below it linked as they come. */
  lemma ShowsOnItsOwn(objs: set<Result>, g: Graph, root: Result, below: set<Result>, forest: Graph)
    requires Shows(below, forest) && objs == below + {root}
    requires root.storePath !in forest && g.Keys == forest.Keys + {root.storePath}
    requires forall p :: p in forest ==> g[p] == forest[p]
    requires ShowsNode(root, g[root.storePath], below)
    ensures Shows(objs, g)
  {
    forall p | p in g
      ensures exists r :: r in objs && r.storePath == p
    {
      if p in forest {
        var r :| r in below && r.storePath == p;
        assert r in objs;
      } else {
        assert root in objs;
      }
    }
  }

  lemma WalkSeesNewPaths(st: Store, universe: set<Path>, d: nat, a: seq<Path>, b: seq<Path>, visited: set<Path>)
    requires FiniteStore(st, universe) && Elems(a) <= universe && Elems(b) <= universe
    requires Unseen(a, visited) == Unseen(b, visited)
    ensures Walk(st, universe, d, a, visited) == Walk(st, universe, d, b, visited)
  {
  }

  lemma AllMissingOfOne(st: Store, d: nat, level: set<Path>, p: Path)
    ensures AllMissing(st, d, level, [p]) == Unseen(MissingAt(st, d, level, p), {})
  {
    assert [p][..0] == [];
    assert Elems<Path>([]) == {};
    assert [] + Unseen(MissingAt(st, d, level, p), {}) == Unseen(MissingAt(st, d, level, p), {});
  }

  lemma SingleWalk(st: Store, universe: set<Path>, p: Path)
    requires FiniteStore(st, universe) && p in universe
    ensures Elems(MissingAt(st, 0, {p}, p)) <= universe
    ensures Elems(AllMissing(st, 0, {p}, [p])) <= universe
    ensures Walk(st, universe, 1, AllMissing(st, 0, {p}, [p]), {p}) ==
      Walk(st, universe, 1, MissingAt(st, 0, {p}, p), {p})
  {
    var missing := MissingAt(st, 0, {p}, p);
    forall q | q in Elems(missing)
      ensures q in universe
    {
      assert q in missing;
    }
    AllMissingOfOne(st, 0, {p}, p);
    assert Elems(Unseen(missing, {})) == Elems(missing);
    UnseenUnseen(missing, {p});
    WalkSeesNewPaths(st, universe, 1, missing, Unseen(missing, {}), {p});
  }

  /** What one path prepared on its own is missing, and the walk below it. */
  lemma SingleRoot(st: Store, universe: set<Path>, p: Path)
    requires FiniteStore(st, universe) && p in universe && Preparable(st, p)
    ensures Elems(MissingAt(st, 0, {p}, p)) <= universe
    ensures
      var missing := MissingAt(st, 0, {p}, p);
      var below := Walk(st, universe, 1, missing, {p});
      var w := Prepared(st, universe, [p]);
      && (w.Walked? <==> below.Walked?)
      && (w.Walked? ==>
            && below.tops == Unseen(missing, {p}) && p in w.forest && p !in below.forest
            && OnItsOwn(w.forest, p) == below.forest[p := Node(0, missing, below.tops)])
  {
    assert Elems([p]) == {p};
    hide *;
    SingleWalk(st, universe, p);
    PreparedBelowRoots(st, universe, [p]);
    var missing := MissingAt(st, 0, {p}, p);
    var below := Walk(st, universe, 1, missing, {p});
    if below.Walked? {
      BelowIsFresh(st, universe, missing, p);
      RootOnItsOwn(st, p, below.forest, Prepared(st, universe, [p]).forest, below.tops);
    }
  }

  lemma RootOnItsOwn(st: Store, p: Path, below: Graph, forest: Graph, next: seq<Path>)
    requires p !in below && forest == below + LevelNodes(st, 0, [p], next)
    requires next == Unseen(MissingAt(st, 0, {p}, p), {p})
    ensures p in forest && OnItsOwn(forest, p) == below[p := Node(0, MissingAt(st, 0, {p}, p), next)]
  {
    hide LevelNodes, MissingAt, Unseen, KeepIn, Elems;
    OneNode(st, p, next);
  }

  /** A level of a single path. */
  lemma OneNode(st: Store, p: Path, next: seq<Path>)
    ensures LevelNodes(st, 0, [p], next) ==
      map[p := Node(0, MissingAt(st, 0, {p}, p), KeepIn(MissingAt(st, 0, {p}, p), Elems(next)))]
  {
    hide MissingAt, KeepIn;
    assert Elems([p]) == {p};
  }

  lemma BelowIsFresh(st: Store, universe: set<Path>, refPaths: seq<Path>, p: Path)
    requires FiniteStore(st, universe) && Elems(refPaths) <= universe
    requires Walk(st, universe, 1, refPaths, {p}).Walked?
    ensures p !in Walk(st, universe, 1, refPaths, {p}).forest
    ensures Walk(st, universe, 1, refPaths, {p}).tops == Unseen(refPaths, {p})
  {
    WalkLevelled(st, universe, 1, refPaths, {p});
  }

  /** Prepares a single path. */
  method Prepare(st: Store, ghost universe: set<Path>, storePath: Path, prepareMissingRefs: bool)
    returns (ok: bool, result: Result?, ghost objs: set<Result>)
    requires FiniteStore(st, universe) && storePath in universe
    ensures prepareMissingRefs ==> (ok <==> Prepared(st, universe, [storePath]).Walked?)
    ensures prepareMissingRefs && ok ==>
      var forest := Prepared(st, universe, [storePath]).forest;
      storePath in forest && Shows(objs, OnItsOwn(forest, storePath))
    ensures !prepareMissingRefs ==> (ok <==> Preparable(st, storePath))
    ensures !prepareMissingRefs && ok ==> Shows(objs, RootsOnly(st, [storePath]))
    ensures ok ==> result != null && result.storePath == storePath && result in objs && fresh(objs) && OneEach(objs)
  {
    SingleFails(st, universe, storePath);
    hide *;
    result, objs := null, {};
    var info := st.info(storePath);
    if info.None? {
      return false, null, {};
    }
    var missingRefs := CheckReferences(st, storePath, info.value);
    if !st.writable(storePath) {
      return false, null, {};
    }
    var r := new Result(storePath);
    r.missingRefs := missingRefs;
    ok, result, objs := true, r, {r};
    if prepareMissingRefs {
      ok, objs := PrepareSingleBelow(st, universe, r);
    } else {
      ShowsSingle(st, r);
    }
  }

  lemma SingleFails(st: Store, universe: set<Path>, p: Path)
    requires FiniteStore(st, universe) && p in universe
    ensures Elems([p]) == {p}
    ensures Preparable(st, p) <==> st.info(p).Some? && st.writable(p)
    ensures !Preparable(st, p) ==> Prepared(st, universe, [p]).WalkFailed?
  {
    assert Elems([p]) == {p};
    hide FiniteStore, Elems, Prepared;
    if !Preparable(st, p) {
      UnpreparableRootFails(st, universe, [p], p);
    }
  }

  lemma ShowsSingle(st: Store, r: Result)
    requires r.missingRefs == MissingAt(st, 0, {r.storePath}, r.storePath) && r.missingRefResults == []
    ensures Shows({r}, RootsOnly(st, [r.storePath])) && OneEach({r})
  {
    assert PathsOf([r]) == [r.storePath] && Elems([r]) == {r} && Elems([r.storePath]) == {r.storePath};
    hide MissingAt, Shows, RootsOnly, PathsOf;
    ShowsRootsOnly(st, [r]);
  }

  /** Prepares what a single path is missing and links the results under it. */
  method PrepareSingleBelow(st: Store, ghost universe: set<Path>, r: Result) returns (ok: bool, ghost objs: set<Result>)
    requires FiniteStore(st, universe) && r.storePath in universe && Preparable(st, r.storePath)
    requires r.missingRefs == MissingAt(st, 0, {r.storePath}, r.storePath) && r.missingRefResults == []
    requires Elems([r.storePath]) == {r.storePath}
    modifies r
    ensures ok <==> Prepared(st, universe, [r.storePath]).Walked?
    ensures ok ==>
      var forest := Prepared(st, universe, [r.storePath]).forest;
      r.storePath in forest && Shows(objs, OnItsOwn(forest, r.storePath))
    ensures ok ==> r in objs && fresh(objs - {r}) && OneEach(objs)
  {
    hide *;
    var p := r.storePath;
    SingleRoot(st, universe, p);
    ghost var w := Walk(st, universe, 1, r.missingRefs, {p});
    ghost var below := {};
    ok := true;
    if |r.missingRefs| > 0 {
      var visited := new Visited({p});
      var refResults;
      ok, refResults, below := PrepareRefsRecursive(st, universe, 1, r.missingRefs, visited);
      if !ok {
        return false, {};
      }
      r.missingRefResults := refResults;
    } else {
      NothingBelow(st, universe, 1, {p});
      NothingShown();
    }
    objs := below + {r};
    ghost var g := OnItsOwn(Prepared(st, universe, [p]).forest, p);
    assert g == w.forest[p := Node(0, r.missingRefs, w.tops)];
    RootIsShown(r, g[p], below);
    ShowsOnItsOwn(objs, g, r, below, w.forest);
    OneEachAddsRoot(below, w.forest, r);
  }

  lemma RootIsShown(r: Result, node: Node, below: set<Result>)
    requires r.missingRefs == node.missing && PathsOf(r.missingRefResults) == node.links
    requires Elems(r.missingRefResults) <= below
    ensures ShowsNode(r, node, below)
  {
  }

  lemma OneEachAddsRoot(below: set<Result>, forest: Graph, r: Result)
    requires OneEach(below) && Shows(below, forest) && r.storePath !in forest
    ensures OneEach(below + {r})
  {
  }

  /** Checks the references of one path, asking once for each reference, repeated hashes included. */
  method CheckReferences(st: Store, storePath: Path, references: seq<Path>) returns (missing: seq<Path>)
    requires st.info(storePath) == Some(references)
    ensures missing == MissingAt(st, 0, {storePath}, storePath)
  {
    if |references| == 0 {
      KeepInNoElements(Absent(st, [], LevelAnswer(st, 0, {storePath})));
      return [];
    }
    var refHashes := HashPerReference(st, references);
    HashesOfOneMore(st, {}, storePath);
    assert {} + {storePath} == {storePath} && Elems(refHashes) == LevelHashes(st, {storePath});
    var existsMap := CheckRefBatch(st, 0, Elems(refHashes));
    missing := ComputeMissingRefs(st, references, existsMap);
  }

  /** One hash for each reference whose name parses, in order. */
  method HashPerReference(st: Store, references: seq<Path>) returns (refHashes: seq<Hash>)
    ensures refHashes == HashesInOrder(st, references)
    ensures HashedInPlace(st, references, refHashes)
    ensures Elems(refHashes) ==
      set j | 0 <= j < |references| && st.hashOf(references[j]).Some? :: st.hashOf(references[j]).value
  {
    HashesAreInPlace(st, references);
    hide HashedInPlace;
    refHashes := [];
    for i := 0 to |references|
      invariant refHashes == HashesInOrder(st, references[..i])
      invariant Elems(refHashes) ==
        set j | 0 <= j < i && st.hashOf(references[j]).Some? :: st.hashOf(references[j]).value
    {
      TakeNext(references, i);
      assert (references[..i] + [references[i]])[..i] == references[..i];
      var refHash := st.hashOf(references[i]);
      if refHash.Some? {
        ElemsAppend(refHashes, refHash.value);
        refHashes := refHashes + [refHash.value];
      }
    }
    assert references[..|references|] == references;
  }

  /** One hash for each place that holds a reference whose name parses. */
  ghost predicate HashedInPlace(st: Store, references: seq<Path>, refHashes: seq<Hash>)
  {
    exists parsed :: KeptAt(references, (set p | p in references && st.hashOf(p).Some?), parsed)
      && |parsed| == |refHashes| && forall k :: 0 <= k < |parsed| ==> st.hashOf(parsed[k]) == Some(refHashes[k])
  }

  lemma {:induction false} HashesOfKept(st: Store, references: seq<Path>, keep: set<Path>)
    requires forall p :: p in references ==> (p in keep <==> st.hashOf(p).Some?)
    ensures |KeepIn(references, keep)| == |HashesInOrder(st, references)|
    ensures forall k :: 0 <= k < |KeepIn(references, keep)| ==>
      st.hashOf(KeepIn(references, keep)[k]) == Some(HashesInOrder(st, references)[k])
  {
    if references != [] {
      var n := |references| - 1;
      HashesOfKept(st, references[..n], keep);
      assert references[n] in references;
    }
  }

  lemma HashesAreInPlace(st: Store, references: seq<Path>)
    ensures HashedInPlace(st, references, HashesInOrder(st, references))
  {
    var keep := set p | p in references && st.hashOf(p).Some?;
    HashesOfKept(st, references, keep);
    KeepInIs(references, keep);
    hide KeepIn, HashesInOrder, KeptAt;
    assert KeptAt(references, keep, KeepIn(references, keep));
  }

  function HashesInOrder(st: Store, references: seq<Path>): seq<Hash>
  {
    if references == [] then []
    else
      var n := |references| - 1;
      HashesInOrder(st, references[..n])
      + if st.hashOf(references[n]).Some? then [st.hashOf(references[n]).value] else []
  }

  lemma KeepInNoElements(keep: set<Path>)
    ensures KeepIn([], keep) == []
  {
  }
}
