/**
 Theorems about the graph a whole preparation leaves behind: its levels are the
 distances from the requested roots, its links are the missing references that
 lead one level further away, and its paths are exactly the missing closure.
 */
module PreparedClosure {
  import opened Sequences
  import opened Reachability
  import opened ReferenceWalk

  /** The walk from the requested roots themselves, with nothing visited yet. */
  ghost function Prepared(st: Store, universe: set<Path>, roots: seq<Path>): (r: Walked)
    requires FiniteStore(st, universe) && Elems(roots) <= universe
  {
    Walk(st, universe, 0, roots, {})
  }

  /**
   A single path is prepared on its own and is given the results of the walk
   below it as they come, instead of looking up each of its missing references.
   */
  function OnItsOwn(g: Graph, root: Path): Graph
    requires root in g
  {
    g[root := g[root].(links := Unseen(g[root].missing, {root}))]
  }

  /** g is what preparing these roots produced, as a batch or as a single path. */
  ghost predicate IsPrepared(st: Store, universe: set<Path>, roots: seq<Path>, g: Graph)
  {
    && FiniteStore(st, universe) && Elems(roots) <= universe
    && Prepared(st, universe, roots).Walked?
    && var forest := Prepared(st, universe, roots).forest;
       g == forest || (|roots| == 1 && roots[0] in forest && g == OnItsOwn(forest, roots[0]))
  }

  /** The structure of a prepared graph, all that the theorems below rest on. */
  ghost predicate Layered(g: Graph, roots: set<Path>)
  {
    && AtDepth(g, 0) == roots
    && EdgesBounded(g, {})
    && HasParents(g, 0)
    && LinksNextLevel(g)
  }

  /** Preparing found an answer, a level and the artifacts for every path of the graph. */
  ghost predicate PreparedFrom(st: Store, g: Graph, roots: set<Path>)
  {
    Layered(g, roots) && RecordsAnswers(st, g) && forall p :: p in g ==> Preparable(st, p)
  }

  lemma ForestIsLayered(st: Store, universe: set<Path>, roots: seq<Path>)
    requires FiniteStore(st, universe) && Elems(roots) <= universe
    requires Prepared(st, universe, roots).Walked?
    ensures PreparedFrom(st, Prepared(st, universe, roots).forest, Elems(roots))
  {
    WalkLevelled(st, universe, 0, roots, {});
  }

  lemma OnItsOwnIsLayered(st: Store, forest: Graph, root: Path)
    requires root in forest && PreparedFrom(st, forest, {root})
    ensures PreparedFrom(st, OnItsOwn(forest, root), {root})
  {
    SingleIsLayered(forest, root);
    SingleKeepsAnswers(st, forest, root);
  }

  lemma PreparedIsLayered(st: Store, universe: set<Path>, roots: seq<Path>, g: Graph)
    requires IsPrepared(st, universe, roots, g)
    ensures PreparedFrom(st, g, Elems(roots))
  {
    var forest := Prepared(st, universe, roots).forest;
    if g == forest {
      ForestIsLayered(st, universe, roots);
    } else {
      assert Elems(roots) == {roots[0]} by { assert roots == [roots[0]]; }
      ForestIsLayered(st, universe, roots);
      OnItsOwnIsLayered(st, forest, roots[0]);
    }
  }

  lemma SingleKeepsAnswers(st: Store, forest: Graph, root: Path)
    requires root in forest && RecordsAnswers(st, forest)
    ensures RecordsAnswers(st, OnItsOwn(forest, root))
  {
    assert forall k :: AtDepth(OnItsOwn(forest, root), k) == AtDepth(forest, k);
  }

  /** All a single root is missing, itself aside, lies one level below it. */
  lemma RootLinks(forest: Graph, root: Path)
    requires root in forest && Layered(forest, {root})
    ensures forest[root].depth == 0
    ensures Elems(forest[root].missing) - {root} == Elems(forest[root].missing) * AtDepth(forest, 1)
  {
    var missing := forest[root].missing;
    assert root in AtDepth(forest, 0);
    forall q
      ensures q in Elems(missing) - {root} <==> q in Elems(missing) * AtDepth(forest, 1)
    {
      if q in Elems(missing) && q != root {
        assert q in missing && q in forest && forest[q].depth <= 1;
        assert q !in AtDepth(forest, 0);
      }
    }
  }

  lemma SingleIsLayered(forest: Graph, root: Path)
    requires root in forest && Layered(forest, {root})
    ensures Layered(OnItsOwn(forest, root), {root})
  {
    var g := OnItsOwn(forest, root);
    assert forall k :: AtDepth(g, k) == AtDepth(forest, k);
    RootLinks(forest, root);
    forall q | q in g && g[q].depth > 0
      ensures HasParent(g, q)
    {
      assert HasParent(forest, q);
      var p :| IsParent(forest, p, q);
      assert IsParent(g, p, q);
    }
  }

  // ---- links --------------------------------------------------------------

  lemma LinkIffOneDeeper(g: Graph, p: Path, q: Path)
    requires LinksNextLevel(g) && p in g
    ensures q in g[p].links <==> q in g[p].missing && q in g && g[q].depth == g[p].depth + 1
  {
    assert q in Elems(g[p].links) <==> q in Elems(g[p].missing) * AtDepth(g, g[p].depth + 1);
  }

  lemma LayeredIsClosed(g: Graph, roots: set<Path>)
    requires Layered(g, roots)
    ensures Closed(LinksOf(g)) && Closed(MissingOf(g))
  {
    forall p, q | p in g && q in g[p].links
      ensures q in g
    {
      LinkIffOneDeeper(g, p, q);
    }
  }

  lemma {:induction false} LinksAddDepth(g: Graph, p: Path, q: Path, n: nat)
    requires LinksNextLevel(g) && p in g
    requires ReachIn(LinksOf(g), p, q, n)
    ensures q in g && g[q].depth == g[p].depth + n
    decreases n
  {
    if n > 0 {
      var m :| m in LinksOf(g)[p] && ReachIn(LinksOf(g), m, q, n - 1);
      LinkIffOneDeeper(g, p, m);
      LinksAddDepth(g, m, q, n - 1);
    }
  }

  /** The result graph has no cycle, whatever cycles the references have. */
  lemma LinksAreAcyclic(g: Graph, roots: set<Path>)
    requires Layered(g, roots)
    ensures Acyclic(LinksOf(g))
  {
    forall p | p in g
      ensures !StrictlyReaches(LinksOf(g), p, p)
    {
      if StrictlyReaches(LinksOf(g), p, p) {
        var m :| m in g[p].links && Reaches(LinksOf(g), m, p);
        var n: nat :| ReachIn(LinksOf(g), m, p, n);
        LinkIffOneDeeper(g, p, m);
        LinksAddDepth(g, m, p, n);
        assert false;
      }
    }
  }

  lemma LinksNeverReachRoots(g: Graph, roots: set<Path>, p: Path, q: Path)
    requires Layered(g, roots) && p in g && q in g[p].links
    ensures q !in roots
  {
    LinkIffOneDeeper(g, p, q);
    assert q !in AtDepth(g, 0);
  }

  // ---- distances ------------------------------------------------------------

  lemma {:induction false} WalksBoundDepth(g: Graph, p: Path, q: Path, n: nat)
    requires EdgesBounded(g, {}) && p in g
    requires ReachIn(MissingOf(g), p, q, n)
    ensures q in g && g[q].depth <= g[p].depth + n
    decreases n
  {
    if n > 0 {
      var m :| m in MissingOf(g)[p] && ReachIn(MissingOf(g), m, q, n - 1);
      assert m in g && g[m].depth <= g[p].depth + 1;
      WalksBoundDepth(g, m, q, n - 1);
    }
  }

  /** Every prepared path hangs off a root by as many links as its level says. */
  lemma {:induction false} LinkedFromRoot(g: Graph, roots: set<Path>, q: Path) returns (r: Path)
    requires Layered(g, roots) && q in g
    ensures r in roots
    ensures ReachIn(LinksOf(g), r, q, g[q].depth)
    ensures ReachIn(MissingOf(g), r, q, g[q].depth)
    decreases g[q].depth
  {
    if g[q].depth == 0 {
      assert q in AtDepth(g, 0);
      r := q;
    } else {
      assert HasParent(g, q);
      var p :| IsParent(g, p, q);
      r := LinkedFromRoot(g, roots, p);
      LinkIffOneDeeper(g, p, q);
      ReachInThenEdge(LinksOf(g), r, p, q, g[p].depth);
      ReachInThenEdge(MissingOf(g), r, p, q, g[p].depth);
    }
  }

  /** The recorded level of a path is its distance from the roots through missing references. */
  lemma DepthIsDistance(g: Graph, roots: set<Path>, q: Path)
    requires Layered(g, roots) && q in g
    ensures IsDistance(MissingOf(g), roots, q, g[q].depth)
  {
    var r := LinkedFromRoot(g, roots, q);
    assert FromRoots(MissingOf(g), roots, q, g[q].depth);
    forall m: nat | m < g[q].depth
      ensures !FromRoots(MissingOf(g), roots, q, m)
    {
      if FromRoots(MissingOf(g), roots, q, m) {
        var s :| s in roots && ReachIn(MissingOf(g), s, q, m);
        assert s in AtDepth(g, 0);
        WalksBoundDepth(g, s, q, m);
        assert false;
      }
    }
  }

  lemma LayeredLinks(g: Graph, roots: set<Path>, p: Path, q: Path)
    requires Layered(g, roots) && p in g
    ensures q in g[p].links <==> q in g[p].missing && IsDistance(MissingOf(g), roots, q, g[p].depth + 1)
  {
    LinkIffOneDeeper(g, p, q);
    if q in g[p].missing {
      DepthIsDistance(g, roots, q);
      if IsDistance(MissingOf(g), roots, q, g[p].depth + 1) {
        DistanceUnique(MissingOf(g), roots, q, g[p].depth + 1, g[q].depth);
      }
    }
  }

  /**
   A result is linked under another exactly when it is one of its missing
   references and is one step further from the roots.
   */
  lemma LinkIffNextDistance(st: Store, universe: set<Path>, roots: seq<Path>, g: Graph, p: Path, q: Path, n: nat)
    requires IsPrepared(st, universe, roots, g)
    requires p in g && IsDistance(MissingOf(g), Elems(roots), p, n)
    ensures q in g[p].links <==> q in g[p].missing && IsDistance(MissingOf(g), Elems(roots), q, n + 1)
  {
    hide IsPrepared, Layered, PreparedFrom, IsDistance;
    PreparedIsLayered(st, universe, roots, g);
    DepthIsDistance(g, Elems(roots), p);
    DistanceUnique(MissingOf(g), Elems(roots), p, n, g[p].depth);
    LayeredLinks(g, Elems(roots), p, q);
  }

  /** Cycles, self-references and shared dependencies never show in the links. */
  lemma LinksFormLevels(st: Store, universe: set<Path>, roots: seq<Path>, g: Graph)
    requires IsPrepared(st, universe, roots, g)
    ensures Acyclic(LinksOf(g)) && Closed(LinksOf(g)) && Closed(MissingOf(g))
    ensures forall p, q :: p in g && q in g[p].links ==> q !in roots
  {
    PreparedIsLayered(st, universe, roots, g);
    LinksAreAcyclic(g, Elems(roots));
    LayeredIsClosed(g, Elems(roots));
    forall p, q | p in g && q in g[p].links
      ensures q !in roots
    {
      LinksNeverReachRoots(g, Elems(roots), p, q);
      assert q !in Elems(roots);
    }
  }

  /** Nothing is prepared that cannot be found from a requested path by following links. */
  lemma HangsFromRoot(st: Store, universe: set<Path>, roots: seq<Path>, g: Graph, q: Path) returns (r: Path)
    requires IsPrepared(st, universe, roots, g) && q in g
    ensures r in roots && Reaches(LinksOf(g), r, q)
  {
    PreparedIsLayered(st, universe, roots, g);
    r := LinkedFromRoot(g, Elems(roots), q);
    assert r in Elems(roots);
  }

  // ---- what exactly is prepared -------------------------------------------

  /** Every batch is answered with the truth about one fixed set of held hashes. */
  ghost predicate Truthful(st: Store, held: set<Hash>)
  {
    forall d, hashes, h ::
      (h in st.upstream(d, hashes) && st.upstream(d, hashes)[h]) <==> h in hashes && h in held
  }

  ghost predicate NamesParse(st: Store, universe: set<Path>)
  {
    forall p :: p in universe ==> st.hashOf(p).Some?
  }

  /** The references no upstream holds, defined without reference to the walk. */
  ghost function UnheldReferences(st: Store, universe: set<Path>, held: set<Hash>): (r: Links)
  {
    var unheld := set q | q in universe && st.hashOf(q).Some? && st.hashOf(q).value !in held;
    map p | p in universe :: KeepIn(Refs(st, p), unheld)
  }

  lemma MissingAreUnheld(st: Store, universe: set<Path>, held: set<Hash>, d: nat, level: set<Path>, p: Path)
    requires FiniteStore(st, universe) && Truthful(st, held) && NamesParse(st, universe)
    requires p in level && p in universe
    ensures forall q :: q in MissingAt(st, d, level, p) <==> q in UnheldReferences(st, universe, held)[p]
  {
    var hashes := LevelHashes(st, level);
    var answer := LevelAnswer(st, d, level);
    forall q | q in Refs(st, p)
      ensures q in MissingAt(st, d, level, p) <==> st.hashOf(q).value !in held
    {
      assert q in universe;
      assert st.hashOf(q).value in hashes;
      assert answer == st.upstream(d, hashes);
      assert Present(st, answer, q) <==> st.hashOf(q).value in held;
    }
  }

  lemma {:induction false} PreparedInStore(st: Store, universe: set<Path>, d: nat, refPaths: seq<Path>,
                                           visited: set<Path>)
    requires FiniteStore(st, universe) && Elems(refPaths) <= universe
    requires Walk(st, universe, d, refPaths, visited).Walked?
    ensures Walk(st, universe, d, refPaths, visited).forest.Keys <= universe
    decreases universe - visited
  {
    var tops := Unseen(refPaths, visited);
    if tops != [] {
      assert tops[0] in Elems(tops);
      assert universe - (visited + Elems(tops)) < universe - visited;
      AllMissingInStore(st, universe, d, Elems(tops), tops);
      PreparedInStore(st, universe, d + 1, AllMissing(st, d, Elems(tops), tops), visited + Elems(tops));
    }
  }

  lemma LayeredReach(g: Graph, roots: set<Path>, U: Links)
    requires Layered(g, roots) && g.Keys <= U.Keys
    requires forall p, q :: p in g ==> (q in MissingOf(g)[p] <==> q in U[p])
    ensures forall p :: p in g <==> exists r :: r in roots && Reaches(U, r, p)
  {
    hide *;
    forall p | p in g
      ensures exists r :: r in roots && Reaches(U, r, p)
    {
      var r := ReachedFromRoot(g, roots, U, p);
    }
    forall p, r | r in roots && Reaches(U, r, p)
      ensures p in g
    {
      ReachedIsLayered(g, roots, U, r, p);
    }
  }

  lemma ReachedFromRoot(g: Graph, roots: set<Path>, U: Links, p: Path) returns (r: Path)
    requires Layered(g, roots) && g.Keys <= U.Keys && p in g
    requires forall p, q :: p in g ==> (q in MissingOf(g)[p] <==> q in U[p])
    ensures r in roots && Reaches(U, r, p)
  {
    r := LinkedFromRoot(g, roots, p);
    hide Layered;
    SameEdgesReach(MissingOf(g), U, r, p, g[p].depth);
  }

  lemma ReachedIsLayered(g: Graph, roots: set<Path>, U: Links, r: Path, p: Path)
    requires Layered(g, roots) && g.Keys <= U.Keys && r in roots && Reaches(U, r, p)
    requires forall p, q :: p in g ==> (q in MissingOf(g)[p] <==> q in U[p])
    ensures p in g
  {
    assert r in AtDepth(g, 0);
    LayeredIsClosed(g, roots);
    hide Layered, AtDepth;
    var n: nat :| ReachIn(U, r, p, n);
    ClosedSetHoldsReach(U, g.Keys, r, p, n);
  }

  /**
   With an upstream that answers truthfully and names that parse, the prepared
   paths are exactly the roots and everything they reach through references
   that no upstream holds.
   */
  lemma PreparedExactly(st: Store, universe: set<Path>, roots: seq<Path>, g: Graph, held: set<Hash>)
    requires IsPrepared(st, universe, roots, g)
    requires Truthful(st, held) && NamesParse(st, universe)
    ensures forall p :: p in g <==>
      exists r :: r in Elems(roots) && Reaches(UnheldReferences(st, universe, held), r, p)
  {
    hide *;
    PreparedHasLevels(st, universe, roots, g);
    PreparedEdges(st, universe, roots, g, held);
    LayeredReach(g, Elems(roots), UnheldReferences(st, universe, held));
  }

  /**
   Whatever the upstreams answer, and if they fail, the prepared paths are exactly
   the roots and everything they reach through the references found missing.
   */
  lemma PreparedIsMissingClosure(st: Store, universe: set<Path>, roots: seq<Path>, g: Graph)
    requires IsPrepared(st, universe, roots, g)
    ensures forall p :: p in g <==> exists r :: r in Elems(roots) && Reaches(MissingOf(g), r, p)
  {
    PreparedHasLevels(st, universe, roots, g);
    hide IsPrepared, Layered, Reaches, Elems;
    LayeredReach(g, Elems(roots), MissingOf(g));
  }

  lemma PreparedHasLevels(st: Store, universe: set<Path>, roots: seq<Path>, g: Graph)
    requires IsPrepared(st, universe, roots, g)
    ensures Layered(g, Elems(roots))
  {
    hide Layered, IsPrepared;
    PreparedIsLayered(st, universe, roots, g);
  }

  lemma PreparedEdges(st: Store, universe: set<Path>, roots: seq<Path>, g: Graph, held: set<Hash>)
    requires IsPrepared(st, universe, roots, g)
    requires Truthful(st, held) && NamesParse(st, universe)
    ensures g.Keys <= UnheldReferences(st, universe, held).Keys
    ensures forall p, q :: p in g ==> (q in MissingOf(g)[p] <==> q in UnheldReferences(st, universe, held)[p])
  {
    PreparedIsLayered(st, universe, roots, g);
    PreparedInStore(st, universe, 0, roots, {});
    assert g.Keys == Prepared(st, universe, roots).forest.Keys;
    hide IsPrepared, Truthful, NamesParse, Layered, KeepIn, AtDepth;
    forall p, q | p in g
      ensures q in MissingOf(g)[p] <==> q in UnheldReferences(st, universe, held)[p]
    {
      MissingAreUnheld(st, universe, held, g[p].depth, AtDepth(g, g[p].depth), p);
    }
  }

  lemma {:induction false} WalkFailureReason(st: Store, universe: set<Path>, held: set<Hash>, d: nat,
                                             refPaths: seq<Path>, visited: set<Path>)
    returns (s: Path, q: Path)
    requires FiniteStore(st, universe) && Elems(refPaths) <= universe
    requires Truthful(st, held) && NamesParse(st, universe)
    requires Walk(st, universe, d, refPaths, visited).WalkFailed?
    ensures s in refPaths && Reaches(UnheldReferences(st, universe, held), s, q) && !Preparable(st, q)
    decreases universe - visited
  {
    var U := UnheldReferences(st, universe, held);
    var tops := Unseen(refPaths, visited);
    assert forall p :: p in tops ==> p in Elems(tops);
    assert forall p :: p in Elems(tops) ==> p in Elems(refPaths);
    if p :| p in tops && !Preparable(st, p) {
      s, q := p, p;
      ReachesSelf(U, p);
    } else {
      WalkStep(st, universe, d, refPaths, visited, tops);
      var next := AllMissing(st, d, Elems(tops), tops);
      assert tops[0] in Elems(tops);
      assert universe - (visited + Elems(tops)) < universe - visited;
      var m;
      m, q := WalkFailureReason(st, universe, held, d + 1, next, visited + Elems(tops));
      AllMissingElements(st, d, Elems(tops), tops);
      s :| s in tops && m in MissingAt(st, d, Elems(tops), s);
      MissingAreUnheld(st, universe, held, d, Elems(tops), s);
      ReachInEdge(U, s, m);
      ReachesTransitive(U, s, m, q);
    }
  }

  /**
   With a truthful upstream, preparation terminates with an error exactly when
   some path of the unheld closure has no path info or cannot be written.
   */
  lemma PreparationFailsIff(st: Store, universe: set<Path>, roots: seq<Path>, held: set<Hash>)
    requires FiniteStore(st, universe) && Elems(roots) <= universe
    requires Truthful(st, held) && NamesParse(st, universe)
    ensures Prepared(st, universe, roots).WalkFailed? <==>
      exists r, q :: r in roots && Reaches(UnheldReferences(st, universe, held), r, q) && !Preparable(st, q)
  {
    var w := Prepared(st, universe, roots);
    if w.WalkFailed? {
      var r, q := WalkFailureReason(st, universe, held, 0, roots, {});
    } else {
      assert IsPrepared(st, universe, roots, w.forest);
      PreparedIsLayered(st, universe, roots, w.forest);
      PreparedExactly(st, universe, roots, w.forest, held);
      forall r, q | r in roots && Reaches(UnheldReferences(st, universe, held), r, q)
        ensures Preparable(st, q)
      {
        assert r in Elems(roots);
        assert q in w.forest;
      }
    }
  }
}
