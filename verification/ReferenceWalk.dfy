/**
 The closure walk as a function of its inputs: which store paths are prepared,
 which references each one records as missing, and which results are linked.

 The nix store, the name parser and the upstream caches are parameters. The
 upstream answer may depend on the level of the walk, because each level sends
 its own batch and an upstream may fail for one batch and answer the next.
 */
module ReferenceWalk {
  import opened Sequences
  import opened Reachability

  type Hash = string

  datatype Store = Store(
    info: Path -> Option<seq<Path>>,                 // references of a path, None: no path info
    hashOf: Path -> Option<Hash>,                    // hash part of the name, None: does not parse
    writable: Path -> bool,                          // the NAR and the narinfo can be written
    upstream: (nat, set<Hash>) -> map<Hash, bool>)   // answer to the batch sent at a level

  datatype Node = Node(depth: nat, missing: seq<Path>, links: seq<Path>)
  type Graph = map<Path, Node>

  function LinksOf(g: Graph): (r: Links)
    ensures r.Keys == g.Keys
  {
    map p | p in g :: g[p].links
  }

  function MissingOf(g: Graph): (r: Links)
    ensures r.Keys == g.Keys
  {
    map p | p in g :: g[p].missing
  }

  function Refs(st: Store, p: Path): seq<Path>
  {
    if st.info(p).Some? then st.info(p).value else []
  }

  /** A finite set of store paths that contains the references of its members. */
  ghost predicate FiniteStore(st: Store, universe: set<Path>)
  {
    forall p, q :: p in universe && q in Refs(st, p) ==> q in universe
  }

  /** The hashes one level asks about. */
  function LevelHashes(st: Store, level: set<Path>): set<Hash>
  {
    set p, q | p in level && q in Refs(st, p) && st.hashOf(q).Some? :: st.hashOf(q).value
  }

  function CheckRefBatch(st: Store, d: nat, hashes: set<Hash>): map<Hash, bool>
  {
    if hashes == {} then map[] else st.upstream(d, hashes)
  }

  predicate Present(st: Store, existsMap: map<Hash, bool>, q: Path)
  {
    st.hashOf(q).Some? && st.hashOf(q).value in existsMap && existsMap[st.hashOf(q).value]
  }

  /** References whose name parses and whose hash is not reported present. */
  function Absent(st: Store, refs: seq<Path>, existsMap: map<Hash, bool>): set<Path>
  {
    set q | q in refs && st.hashOf(q).Some? && !Present(st, existsMap, q)
  }

  /** An empty answer means everything is missing, even names that do not parse. */
  function MissingRefs(st: Store, refs: seq<Path>, existsMap: map<Hash, bool>): (r: seq<Path>)
    ensures forall q :: q in r ==> q in refs
    ensures forall q :: q in refs && q !in r ==>
      (st.hashOf(q).None? && existsMap != map[]) || Present(st, existsMap, q)
  {
    if existsMap == map[] then refs else KeepIn(refs, Absent(st, refs, existsMap))
  }

  function LevelAnswer(st: Store, d: nat, level: set<Path>): map<Hash, bool>
  {
    CheckRefBatch(st, d, LevelHashes(st, level))
  }

  function MissingAt(st: Store, d: nat, level: set<Path>, p: Path): (r: seq<Path>)
    ensures forall q :: q in r ==> q in Refs(st, p)
  {
    MissingRefs(st, Refs(st, p), LevelAnswer(st, d, level))
  }

  /** The missing references of a list of paths, first occurrences only. */
  function AllMissing(st: Store, d: nat, level: set<Path>, paths: seq<Path>): seq<Path>
  {
    if paths == [] then []
    else
      var rest := AllMissing(st, d, level, paths[..|paths| - 1]);
      rest + Unseen(MissingAt(st, d, level, paths[|paths| - 1]), Elems(rest))
  }

  lemma {:induction false} AllMissingElements(st: Store, d: nat, level: set<Path>, paths: seq<Path>)
    ensures forall q :: q in AllMissing(st, d, level, paths) <==>
      exists p :: p in paths && q in MissingAt(st, d, level, p)
  {
    if paths != [] {
      var n := |paths| - 1;
      var rest := AllMissing(st, d, level, paths[..n]);
      AllMissingElements(st, d, level, paths[..n]);
      assert paths == paths[..n] + [paths[n]];
      forall q
        ensures q in AllMissing(st, d, level, paths) <==> q in rest || q in MissingAt(st, d, level, paths[n])
      {
        var more := Unseen(MissingAt(st, d, level, paths[n]), Elems(rest));
        assert q in more <==> q in Elems(more);
      }
    }
  }

  /** The missing references of each path of a list, one list after the other. */
  function MissingLists(st: Store, d: nat, level: set<Path>, paths: seq<Path>): seq<seq<Path>>
  {
    seq(|paths|, i requires 0 <= i < |paths| => MissingAt(st, d, level, paths[i]))
  }

  /** What a level is missing is listed once each, where it first occurs. */
  lemma AllMissingInOrder(st: Store, d: nat, level: set<Path>, paths: seq<Path>)
    ensures FirstOccurrences(Concat(MissingLists(st, d, level, paths)), {}, AllMissing(st, d, level, paths))
  {
    AllMissingIsUnseen(st, d, level, paths);
    UnseenIs(Concat(MissingLists(st, d, level, paths)), {});
  }

  lemma {:induction false} AllMissingIsUnseen(st: Store, d: nat, level: set<Path>, paths: seq<Path>)
    ensures AllMissing(st, d, level, paths) == Unseen(Concat(MissingLists(st, d, level, paths)), {})
  {
    var lists := MissingLists(st, d, level, paths);
    if paths == [] {
      assert lists == [] && Unseen<Path>([], {}) == [];
    } else {
      var n := |paths| - 1;
      var rest := AllMissing(st, d, level, paths[..n]);
      assert lists == MissingLists(st, d, level, paths[..n]) + [MissingAt(st, d, level, paths[n])];
      assert AllMissing(st, d, level, paths) == rest + Unseen(MissingAt(st, d, level, paths[n]), Elems(rest));
      assert {} + Elems(rest) == Elems(rest);
      hide *;
      AllMissingIsUnseen(st, d, level, paths[..n]);
      ConcatAppend(MissingLists(st, d, level, paths[..n]), MissingAt(st, d, level, paths[n]));
      UnseenConcat(Concat(MissingLists(st, d, level, paths[..n])), MissingAt(st, d, level, paths[n]), {});
    }
  }

  predicate Preparable(st: Store, p: Path)
  {
    st.info(p).Some? && st.writable(p)
  }

  lemma AllMissingInStore(st: Store, universe: set<Path>, d: nat, level: set<Path>, paths: seq<Path>)
    requires FiniteStore(st, universe) && Elems(paths) <= universe
    ensures Elems(AllMissing(st, d, level, paths)) <= universe
  {
    AllMissingElements(st, d, level, paths);
    forall q | q in AllMissing(st, d, level, paths)
      ensures q in universe
    {
      var p :| p in paths && q in MissingAt(st, d, level, p);
      assert p in Elems(paths);
    }
  }

  datatype Walked = WalkFailed | Walked(tops: seq<Path>, forest: Graph)

  function LevelNodes(st: Store, d: nat, tops: seq<Path>, next: seq<Path>): (r: Graph)
    ensures r.Keys == Elems(tops)
  {
    map p | p in Elems(tops) ::
      Node(d, MissingAt(st, d, Elems(tops), p), KeepIn(MissingAt(st, d, Elems(tops), p), Elems(next)))
  }

  ghost function Walk(st: Store, universe: set<Path>, d: nat, refPaths: seq<Path>, visited: set<Path>): (r: Walked)
    requires FiniteStore(st, universe) && Elems(refPaths) <= universe
    decreases universe - visited
  {
    var tops := Unseen(refPaths, visited);
    if tops == [] then Walked([], map[])
    else if exists p :: p in tops && !Preparable(st, p) then WalkFailed
    else
      assert tops[0] in Elems(tops);
      assert universe - (visited + Elems(tops)) < universe - visited;
      AllMissingInStore(st, universe, d, Elems(tops), tops);
      var below := Walk(st, universe, d + 1, AllMissing(st, d, Elems(tops), tops), visited + Elems(tops));
      if below.WalkFailed? then WalkFailed
      else Walked(tops, below.forest + LevelNodes(st, d, tops, below.tops))
  }

  lemma WalkStep(st: Store, universe: set<Path>, d: nat, refPaths: seq<Path>, visited: set<Path>, tops: seq<Path>)
    requires FiniteStore(st, universe) && Elems(refPaths) <= universe
    requires tops == Unseen(refPaths, visited) && forall p :: p in tops ==> Preparable(st, p)
    ensures Elems(AllMissing(st, d, Elems(tops), tops)) <= universe
    ensures
      var below := Walk(st, universe, d + 1, AllMissing(st, d, Elems(tops), tops), visited + Elems(tops));
      Walk(st, universe, d, refPaths, visited) ==
        if below.WalkFailed? then WalkFailed
        else Walked(tops, below.forest + LevelNodes(st, d, tops, below.tops))
  {
    AllMissingInStore(st, universe, d, Elems(tops), tops);
    if tops == [] {
      assert Unseen([], visited + Elems(tops)) == [];
      assert map[] + LevelNodes(st, d, tops, []) == map[];
    }
  }

  /** One step of the walk, its parts named. */
  lemma WalkOnto(st: Store, universe: set<Path>, tops: seq<Path>, level: set<Path>, next: seq<Path>, below: Walked)
    requires FiniteStore(st, universe) && level <= universe && Elems(next) <= universe
    requires tops == Unseen(tops, {}) && level == Elems(tops) && (forall p :: p in tops ==> Preparable(st, p))
    requires next == AllMissing(st, 0, level, tops) && below == Walk(st, universe, 1, next, level) && below.Walked?
    ensures Walk(st, universe, 0, tops, {}) == Walked(tops, below.forest + LevelNodes(st, 0, tops, below.tops))
  {
    hide *;
    assert {} + Elems(tops) == level;
    WalkStep(st, universe, 0, tops, {}, tops);
  }

  // ---- structure of the forest ------------------------------------------

  ghost function AtDepth(g: Graph, k: nat): set<Path>
  {
    set p | p in g && g[p].depth == k
  }

  /** A missing reference that was not visited before is prepared at most one level further down. */
  ghost predicate EdgesBounded(g: Graph, visited: set<Path>)
  {
    forall p, q :: p in g && q in g[p].missing && q !in visited ==> q in g && g[q].depth <= g[p].depth + 1
  }

  ghost predicate IsParent(g: Graph, p: Path, q: Path)
  {
    q in g && p in g && q in g[p].missing && g[p].depth + 1 == g[q].depth
  }

  ghost predicate HasParent(g: Graph, q: Path)
  {
    exists p :: IsParent(g, p, q)
  }

  /** Everything below depth d was asked for by something one level up. */
  ghost predicate HasParents(g: Graph, d: nat)
  {
    forall q {:trigger HasParent(g, q)} :: q in g && g[q].depth > d ==> HasParent(g, q)
  }

  ghost predicate RecordsAnswers(st: Store, g: Graph)
  {
    forall p :: p in g ==> g[p].missing == MissingAt(st, g[p].depth, AtDepth(g, g[p].depth), p)
  }

  /** The links of a result are exactly its missing references one level down. */
  ghost predicate LinksNextLevel(g: Graph)
  {
    forall p :: p in g ==> Elems(g[p].links) == Elems(g[p].missing) * AtDepth(g, g[p].depth + 1)
  }

  ghost predicate Fresh(st: Store, g: Graph, d: nat, visited: set<Path>)
  {
    forall p :: p in g ==> p !in visited && g[p].depth >= d && Preparable(st, p)
  }

  /** What one call leaves behind when it started at depth d with these visited paths. */
  ghost predicate Levelled(st: Store, d: nat, refPaths: seq<Path>, visited: set<Path>, w: Walked)
    requires w.Walked?
  {
    && NoDup(w.tops)
    && Elems(w.tops) == Elems(refPaths) - visited
    && AtDepth(w.forest, d) == Elems(w.tops)
    && Fresh(st, w.forest, d, visited)
    && EdgesBounded(w.forest, visited)
    && HasParents(w.forest, d)
    && RecordsAnswers(st, w.forest)
    && LinksNextLevel(w.forest)
  }

  lemma {:induction false} WalkLevelled(st: Store, universe: set<Path>, d: nat, refPaths: seq<Path>, visited: set<Path>)
    requires FiniteStore(st, universe) && Elems(refPaths) <= universe
    requires Walk(st, universe, d, refPaths, visited).Walked?
    ensures Levelled(st, d, refPaths, visited, Walk(st, universe, d, refPaths, visited))
    decreases universe - visited
  {
    var w := Walk(st, universe, d, refPaths, visited);
    var tops := Unseen(refPaths, visited);
    if tops == [] {
      assert Elems(tops) == {};
    } else {
      assert tops[0] in Elems(tops);
      assert universe - (visited + Elems(tops)) < universe - visited;
      AllMissingInStore(st, universe, d, Elems(tops), tops);
      var next := AllMissing(st, d, Elems(tops), tops);
      var below := Walk(st, universe, d + 1, next, visited + Elems(tops));
      WalkLevelled(st, universe, d + 1, next, visited + Elems(tops));
      StackLevels(st, d, refPaths, visited, tops, below);
    }
  }

  /** forest is below with one level of new paths, level, put on top; next is what that level asked for. */
  ghost predicate Grafted(below: Graph, forest: Graph, d: nat, level: set<Path>, next: set<Path>, visited: set<Path>)
  {
    && level !! visited
    && forest.Keys == below.Keys + level
    && (forall p :: p in below ==> p !in visited && p !in level && forest[p] == below[p] && below[p].depth > d)
    && (forall p :: p in level ==> p in forest && forest[p].depth == d)
    && (forall q :: q in next <==> exists p :: p in level && p in forest && q in forest[p].missing)
    && AtDepth(below, d + 1) == next - (visited + level)
  }

  lemma GraftedDepths(below: Graph, forest: Graph, d: nat, level: set<Path>, next: set<Path>, visited: set<Path>)
    requires Grafted(below, forest, d, level, next, visited)
    ensures AtDepth(forest, d) == level
    ensures forall k: nat :: k > d ==> AtDepth(forest, k) == AtDepth(below, k)
  {
    assert forall p :: p in forest ==> p in below || p in level;
    assert forall k: nat, p :: k > d && p in AtDepth(forest, k) ==> p in below;
  }

  lemma GraftedEdges(below: Graph, forest: Graph, d: nat, level: set<Path>, next: set<Path>, visited: set<Path>)
    requires Grafted(below, forest, d, level, next, visited)
    requires EdgesBounded(below, visited + level)
    ensures EdgesBounded(forest, visited)
  {
    forall p, q | p in forest && q in forest[p].missing && q !in visited
      ensures q in forest && forest[q].depth <= forest[p].depth + 1
    {
      if q !in level {
        if p in level {
          assert q in next;
          assert q in AtDepth(below, d + 1);
        } else {
          assert p in below && q in below[p].missing && q !in visited + level;
        }
      }
    }
  }

  lemma GraftedParents(below: Graph, forest: Graph, d: nat, level: set<Path>, next: set<Path>, visited: set<Path>)
    requires Grafted(below, forest, d, level, next, visited)
    requires HasParents(below, d + 1)
    ensures HasParents(forest, d)
  {
    forall q | q in forest && forest[q].depth > d
      ensures HasParent(forest, q)
    {
      assert q in below;
      if forest[q].depth == d + 1 {
        assert q in AtDepth(below, d + 1);
        var p :| p in level && p in forest && q in forest[p].missing;
        assert IsParent(forest, p, q);
      } else {
        assert HasParent(below, q);
        var p :| IsParent(below, p, q);
        assert IsParent(forest, p, q);
      }
    }
  }

  lemma WalkGrafts(st: Store, d: nat, visited: set<Path>, tops: seq<Path>, below: Walked)
    requires below.Walked? && Elems(tops) !! visited
    requires Levelled(st, d + 1, AllMissing(st, d, Elems(tops), tops), visited + Elems(tops), below)
    ensures Grafted(below.forest, below.forest + LevelNodes(st, d, tops, below.tops), d, Elems(tops),
                    Elems(AllMissing(st, d, Elems(tops), tops)), visited)
  {
    var level := Elems(tops);
    var forest := below.forest + LevelNodes(st, d, tops, below.tops);
    var next := AllMissing(st, d, level, tops);
    AllMissingElements(st, d, level, tops);
    forall q
      ensures q in Elems(next) <==> exists p :: p in level && p in forest && q in forest[p].missing
    {
      if q in Elems(next) {
        var p :| p in tops && q in MissingAt(st, d, level, p);
        assert p in level && p in forest && q in forest[p].missing;
      }
    }
  }

  lemma GraftedNodes(st: Store, below: Graph, forest: Graph, d: nat, level: set<Path>, next: set<Path>,
                     visited: set<Path>)
    requires Grafted(below, forest, d, level, next, visited)
    requires RecordsAnswers(st, below) && LinksNextLevel(below)
    requires forall p :: p in level ==> p in forest && forest[p].missing == MissingAt(st, d, level, p)
    requires forall p :: p in level ==>
      p in forest && forest[p].links == KeepIn(forest[p].missing, AtDepth(below, d + 1))
    ensures RecordsAnswers(st, forest) && LinksNextLevel(forest)
  {
    GraftedDepths(below, forest, d, level, next, visited);
    hide MissingAt, KeepIn, Elems, AtDepth;
    forall p | p in forest
      ensures forest[p].missing == MissingAt(st, forest[p].depth, AtDepth(forest, forest[p].depth), p)
      ensures Elems(forest[p].links) == Elems(forest[p].missing) * AtDepth(forest, forest[p].depth + 1)
    {
      if p in level {
        KeepInElems(forest[p].missing, AtDepth(below, d + 1));
      } else {
        assert p in below && forest[p] == below[p];
      }
    }
  }

  lemma StackLevels(st: Store, d: nat, refPaths: seq<Path>, visited: set<Path>, tops: seq<Path>, below: Walked)
    requires tops == Unseen(refPaths, visited)
    requires below.Walked?
    requires forall p :: p in tops ==> Preparable(st, p)
    requires Levelled(st, d + 1, AllMissing(st, d, Elems(tops), tops), visited + Elems(tops), below)
    ensures Levelled(st, d, refPaths, visited, Walked(tops, below.forest + LevelNodes(st, d, tops, below.tops)))
  {
    var level := Elems(tops);
    var next := Elems(AllMissing(st, d, level, tops));
    var forest := below.forest + LevelNodes(st, d, tops, below.tops);
    WalkGrafts(st, d, visited, tops, below);
    GraftedDepths(below.forest, forest, d, level, next, visited);
    GraftedEdges(below.forest, forest, d, level, next, visited);
    GraftedParents(below.forest, forest, d, level, next, visited);
    GraftedNodes(st, below.forest, forest, d, level, next, visited);
    assert Fresh(st, forest, d, visited);
  }
}
