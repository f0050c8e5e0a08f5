/**
 When the publication gate can be trusted on a graph with cycles. Results hold their
 links in some order, and the gate meets paths in progress in an order that follows
 from it; the gate is exact for every order, every choice of roots and every outcome
 of uploads, if and only if the graph has no detours.
 */
module CyclicGate {
  import opened Sequences
  import opened Reachability
  import opened Publication

  /** The same links, each list in any order. */
  ghost predicate Reordered(g: Links, g': Links)
  {
    g'.Keys == g.Keys && forall p :: p in g ==> multiset(g'[p]) == multiset(g[p])
  }

  lemma ReorderedEdges(g: Links, g': Links)
    requires Reordered(g, g')
    ensures forall p, q :: p in g ==> (q in g'[p] <==> q in g[p])
    ensures Closed(g) ==> Closed(g')
  {
    forall p, q | p in g
      ensures q in g'[p] <==> q in g[p]
    {
      assert q in multiset(g'[p]) <==> q in multiset(g[p]);
    }
  }

  lemma SameEdgesReachSame(g: Links, g': Links, p: Path, q: Path)
    requires g'.Keys == g.Keys && forall x, y :: x in g ==> (y in g'[x] <==> y in g[x])
    ensures Reaches(g, p, q) <==> Reaches(g', p, q)
  {
    if Reaches(g, p, q) {
      var n: nat :| ReachIn(g, p, q, n);
      SameEdgesReach(g, g', p, q, n);
    }
    if Reaches(g', p, q) {
      var n: nat :| ReachIn(g', p, q, n);
      SameEdgesReach(g', g, p, q, n);
    }
  }

  lemma ReorderedHasNoDetours(g: Links, g': Links)
    requires Reordered(g, g') && NoDetours(g)
    ensures NoDetours(g')
  {
    ReorderedEdges(g, g');
    forall w, q | IsTrail(g', w) && Reaches(g', w[|w| - 1], q) && q != w[0]
      ensures ReachedRound(g', w, q)
    {
      assert forall i :: 0 <= i < |w| ==> w[i] in Elems(w);
      assert IsTrail(g, w);
      SameEdgesReachSame(g, g', w[|w| - 1], q);
      assert ReachedRound(g, w, q);
      var front := Elems(w[..|w| - 1]);
      SameEdgesReachSame(Cut(g, front), Cut(g', front), w[|w| - 1], q);
    }
  }

  // ---- a detour misleads the gate ---------------------------------------------------

  /** The list with this element moved to its front. */
  function Fronted(ps: seq<Path>, p: Path): (r: seq<Path>)
    requires p in ps
    ensures multiset(r) == multiset(ps) && r != [] && r[0] == p
  {
    if ps[0] == p then ps
    else
      assert ps == [ps[0]] + ps[1..];
      var rest := Fronted(ps[1..], p);
      assert rest == [p] + rest[1..];
      [p, ps[0]] + rest[1..]
  }

  /** From its i-th node on, each node of the trail lists the next one first. */
  ghost predicate Along(g: Links, w: seq<Path>, i: nat)
  {
    forall j :: i <= j < |w| - 1 ==> ListsFirst(g, w[j], w[j + 1])
  }

  ghost predicate ListsFirst(g: Links, p: Path, q: Path)
  {
    p in g && g[p] != [] && g[p][0] == q
  }

  lemma {:induction false} OrderAlong(g: Links, w: seq<Path>, i: nat) returns (r: Links)
    requires IsTrail(g, w) && i < |w|
    ensures Reordered(g, r) && Along(r, w, i)
    ensures forall j :: 0 <= j < i ==> w[j] in g && w[j] in r && r[w[j]] == g[w[j]]
    decreases |w| - i
  {
    assert forall j :: 0 <= j < |w| ==> w[j] in Elems(w);
    if i == |w| - 1 {
      r := g;
    } else {
      var r0 := OrderAlong(g, w, i + 1);
      r := r0[w[i] := Fronted(g[w[i]], w[i + 1])];
    }
  }

  /** A check that meets uploaded paths only, besides those it takes for complete, says yes throughout. */
  ghost predicate AllSayYes(memo: Memo)
  {
    forall x :: x in memo ==> memo[x]
  }

  /** The region holds what its paths link to, outside the paths the memo started with. */
  ghost predicate Region(g: Links, started: set<Path>, region: set<Path>)
  {
    forall x, y :: x in region && x in g && y in g[x] ==> y in region || y in started
  }

  lemma {:induction false} RegionIsComplete(g: Links, up: set<Path>, p: Path, memo: Memo, started: set<Path>,
                                            region: set<Path>)
    requires Closed(g) && p in g && memo.Keys <= g.Keys
    requires Region(g, started, region) && region <= up && p in region + started
    requires AllSayYes(memo) && started <= memo.Keys <= started + region
    ensures Complete(g, up, p, memo).ok
    ensures AllSayYes(Complete(g, up, p, memo).memo) && Complete(g, up, p, memo).memo.Keys <= started + region
    decreases g.Keys - memo.Keys, 0
  {
    if p !in memo {
      assert g.Keys - memo[p := true].Keys < g.Keys - memo.Keys by { assert p in g.Keys - memo.Keys; }
      RegionIsAllComplete(g, up, g[p], memo[p := true], started, region);
    }
  }

  lemma {:induction false} RegionIsAllComplete(g: Links, up: set<Path>, ps: seq<Path>, memo: Memo,
                                               started: set<Path>, region: set<Path>)
    requires Closed(g) && Elems(ps) <= g.Keys && memo.Keys <= g.Keys
    requires Region(g, started, region) && region <= up && Elems(ps) <= region + started
    requires AllSayYes(memo) && started <= memo.Keys <= started + region
    ensures CompleteAll(g, up, ps, memo).ok
    ensures AllSayYes(CompleteAll(g, up, ps, memo).memo) && CompleteAll(g, up, ps, memo).memo.Keys <= started + region
    decreases g.Keys - memo.Keys, |ps| + 1
  {
    if ps != [] {
      assert ps[0] in Elems(ps);
      var first := Complete(g, up, ps[0], memo);
      assert memo.Keys <= first.memo.Keys;
      RegionIsComplete(g, up, ps[0], memo, started, region);
      RegionIsAllComplete(g, up, ps[1..], first.memo, started, region);
    }
  }

  /** The memo in which exactly the given paths are in progress. */
  function Marked(s: set<Path>): Memo
  {
    map p | p in s :: true
  }

  /** What the end of the trail reaches round the trail. */
  ghost function Round(g: Links, w: seq<Path>): set<Path>
    requires w != []
  {
    set x | x in g.Keys && ReachedRound(g, w, x)
  }

  lemma RoundIsRegion(g: Links, w: seq<Path>)
    requires IsTrail(g, w) && Closed(g)
    ensures Region(g, Elems(w[..|w| - 1]), Round(g, w)) && w[|w| - 1] in Round(g, w)
  {
    var front := Elems(w[..|w| - 1]);
    var last := w[|w| - 1];
    assert last in Elems(w);
    ReachesSelf(Cut(g, front), last);
    forall x, y | x in Round(g, w) && x in g && y in g[x] && y !in front
      ensures y in Round(g, w)
    {
      ReachInEdge(Cut(g, front), x, y);
      ReachesTransitive(Cut(g, front), last, x, y);
    }
  }

  /**
   The check descends the trail first: with the first i paths in progress it decides
   the end of the trail to be complete, if all that this reaches round the trail was
   uploaded, and nothing later changes that.
   */
  lemma {:induction false} DescendsTrail(g: Links, up: set<Path>, w: seq<Path>, i: nat)
    requires Closed(g) && IsTrail(g, w) && Along(g, w, 0) && i < |w|
    requires Round(g, w) <= up
    ensures Elems(w[..i]) <= g.Keys && w[i] in g
    ensures var r := Complete(g, up, w[i], Marked(Elems(w[..i]))); w[|w| - 1] in r.memo && r.memo[w[|w| - 1]]
    decreases |w| - i
  {
    var k := |w| - 1;
    var front := Elems(w[..i]);
    assert forall j :: 0 <= j < |w| ==> w[j] in Elems(w);
    assert w[i] !in front;
    if i == k {
      RoundIsRegion(g, w);
      RegionIsComplete(g, up, w[k], Marked(front), front, Round(g, w));
    } else {
      DescendsTrail(g, up, w, i + 1);
      TakeNext(w, i);
      ElemsAppend(w[..i], w[i]);
      assert Marked(front)[w[i] := true] == Marked(Elems(w[..i + 1]));
      var ps := g[w[i]];
      assert ListsFirst(g, w[i], w[i + 1]);
      assert Elems(ps) <= g.Keys;
      var first := Complete(g, up, ps[0], Marked(Elems(w[..i + 1])));
      CompleteAllKeeps(g, up, ps[1..], first.memo);
    }
  }

  // ---- the theorem -------------------------------------------------------------------

  /** The gate is exact for these results and this outcome of uploads. */
  ghost predicate Trusted(g: Links, up: set<Path>, roots: seq<Path>)
  {
    Closed(g) && Elems(roots) <= g.Keys ==> GateIsExact(g, up, roots)
  }

  lemma ReorderedTrail(g: Links, g': Links, w: seq<Path>)
    requires Reordered(g, g') && IsTrail(g, w)
    ensures IsTrail(g', w)
  {
    ReorderedEdges(g, g');
    assert forall i :: 0 <= i < |w| ==> w[i] in Elems(w);
  }

  lemma ReorderedRound(g: Links, g': Links, w: seq<Path>, q: Path)
    requires Reordered(g, g') && w != []
    ensures ReachedRound(g, w, q) <==> ReachedRound(g', w, q)
    ensures Reaches(g, w[|w| - 1], q) <==> Reaches(g', w[|w| - 1], q)
  {
    ReorderedEdges(g, g');
    var front := Elems(w[..|w| - 1]);
    SameEdgesReachSame(g, g', w[|w| - 1], q);
    SameEdgesReachSame(Cut(g, front), Cut(g', front), w[|w| - 1], q);
  }

  /** Where the first path visited decides p to be complete, p is published if it was uploaded. */
  lemma {:induction false} DecidedIsPublished(g: Links, up: set<Path>, order: seq<Path>, p: Path)
    requires Closed(g) && Elems(order) <= g.Keys && order != [] && order[0] in up
    requires var first := Complete(g, up, order[0], map[]).memo; p in first && first[p]
    ensures p in Gate(g, up, order).memo && Gate(g, up, order).memo[p]
    ensures p in order && p in up ==> p in Gate(g, up, order).published
  {
    var n := |order| - 1;
    assert order == order[..n] + [order[n]];
    assert Elems(order[..n]) <= Elems(order) && order[n] in Elems(order);
    hide Complete, CompleteAll, Elems, Closed;
    if n == 0 {
      assert order[..0] == [];
      assert Gate(g, up, []) == Gated(map[], [], []);
    } else {
      DecidedIsPublished(g, up, order[..n], p);
      CompleteKeeps(g, up, order[n], Gate(g, up, order[..n]).memo);
    }
  }

  /** A trail whose end reaches q, other than its start, by touching the trail only: losing q misleads the gate. */
  lemma DetourMisleads(g: Links, w: seq<Path>, q: Path)
    requires Closed(g) && IsTrail(g, w) && Along(g, w, 0)
    requires Reaches(g, w[|w| - 1], q) && q != w[0] && !ReachedRound(g, w, q)
    ensures w[0] in g && !GateIsExact(g, g.Keys - {q}, [w[0]])
  {
    var k := |w| - 1;
    var up, roots, last := g.Keys - {q}, [w[0]], w[k];
    assert w[0] in Elems(w) && last in Elems(w);
    assert Elems(roots) == {w[0]};
    DescendsTrail(g, up, w, 0);
    assert Marked(Elems(w[..0])) == map[];
    var order := TaskPaths(Flatten(g, roots));
    TaskSetIsPaths(Flatten(g, roots));
    FlattenListsReachable(g, roots);
    FirstIsRoot(g, w[0]);
    if k > 0 {
      TrailReaches(g, w, 0);
    }
    ReachesUnfold(g, w[0], last);
    assert FromSome(g, roots, last);
    RoundIsRegion(g, w);
    assert last != q;
    DecidedIsPublished(g, up, order, last);
    assert !ClosureUploaded(g, up, last);
  }

  lemma FirstIsRoot(g: Links, r: Path)
    requires Closed(g) && r in g && Elems([r]) <= g.Keys
    ensures Flatten(g, [r]) != [] && Flatten(g, [r])[0].path == r
  {
    assert TaskSet([]) == {} && TaskSet([Task(r, true)]) <= g.Keys;
    assert [r][1..] == [];
    var tasks := CollectAll(g, g[r], false, [] + [Task(r, true)]);
    assert Collect(g, r, true, []) == tasks;
    assert CollectAll(g, [r][1..], true, tasks) == tasks;
    assert CollectAll(g, [r], true, []) == tasks;
    assert [Task(r, true)] <= tasks;
  }

  /**
   The gate is exact on every order of the links, for all roots and whatever uploads
   fail, if and only if the graph has no detours. Acyclic graphs have none.
   */
  lemma GateIsExactIff(g: Links)
    requires Closed(g)
    ensures (forall g', up, roots :: Reordered(g, g') ==> Trusted(g', up, roots)) <==> NoDetours(g)
  {
    if NoDetours(g) {
      forall g', up, roots | Reordered(g, g')
        ensures Trusted(g', up, roots)
      {
        ReorderedHasNoDetours(g, g');
        if Closed(g') && Elems(roots) <= g'.Keys {
          GateIsExactWithoutDetours(g', up, roots);
        }
      }
    } else {
      var w, q :| IsTrail(g, w) && Reaches(g, w[|w| - 1], q) && q != w[0] && !ReachedRound(g, w, q);
      var g' := OrderAlong(g, w, 0);
      ReorderedEdges(g, g');
      ReorderedTrail(g, g', w);
      ReorderedRound(g, g', w, q);
      DetourMisleads(g', w, q);
      assert Elems([w[0]]) <= g'.Keys;
      assert !Trusted(g', g'.Keys - {q}, [w[0]]);
    }
  }
}
