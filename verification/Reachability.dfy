/**
 Reachability and distance in a finite graph given by successor lists.

 Two graphs over the same store paths matter here: the references found missing
 upstream, and the results linked under each result. Every theorem about what is
 uploaded and what is published is a statement about one of them or about both.
 */
module Reachability {
  import opened Sequences

  type Path = string
  type Links = map<Path, seq<Path>>

  ghost predicate Closed(g: Links)
  {
    forall p, q :: p in g && q in g[p] ==> q in g
  }

  /** q is reached from p by exactly n steps. */
  ghost predicate ReachIn(g: Links, p: Path, q: Path, n: nat)
    decreases n
  {
    if n == 0 then p == q
    else p in g && exists m :: m in g[p] && ReachIn(g, m, q, n - 1)
  }

  ghost predicate Reaches(g: Links, p: Path, q: Path)
  {
    exists n: nat :: ReachIn(g, p, q, n)
  }

  /** q is reached from p by at least one step. */
  ghost predicate StrictlyReaches(g: Links, p: Path, q: Path)
  {
    p in g && exists m :: m in g[p] && Reaches(g, m, q)
  }

  ghost predicate Acyclic(g: Links)
  {
    forall p :: p in g ==> !StrictlyReaches(g, p, p)
  }

  lemma {:induction false} ReachInTransitive(g: Links, p: Path, q: Path, r: Path, a: nat, b: nat)
    requires ReachIn(g, p, q, a) && ReachIn(g, q, r, b)
    ensures ReachIn(g, p, r, a + b)
    decreases a
  {
    if a > 0 {
      var m :| m in g[p] && ReachIn(g, m, q, a - 1);
      ReachInTransitive(g, m, q, r, a - 1, b);
    }
  }

  lemma ReachesTransitive(g: Links, p: Path, q: Path, r: Path)
    requires Reaches(g, p, q) && Reaches(g, q, r)
    ensures Reaches(g, p, r)
  {
    var a: nat :| ReachIn(g, p, q, a);
    var b: nat :| ReachIn(g, q, r, b);
    ReachInTransitive(g, p, q, r, a, b);
  }

  lemma ReachesSelf(g: Links, p: Path)
    ensures Reaches(g, p, p)
  {
    assert ReachIn(g, p, p, 0);
  }

  lemma ReachInEdge(g: Links, p: Path, q: Path)
    requires p in g && q in g[p]
    ensures ReachIn(g, p, q, 1)
    ensures Reaches(g, p, q)
  {
    assert ReachIn(g, q, q, 0);
    assert ReachIn(g, p, q, 1);
  }

  /** Following one more edge at the end. */
  lemma ReachInThenEdge(g: Links, p: Path, q: Path, r: Path, n: nat)
    requires ReachIn(g, p, q, n) && q in g && r in g[q]
    ensures ReachIn(g, p, r, n + 1)
  {
    ReachInEdge(g, q, r);
    ReachInTransitive(g, p, q, r, n, 1);
  }

  /** Reaching something means being there already or leaving by some edge. */
  lemma ReachesUnfold(g: Links, p: Path, q: Path)
    ensures Reaches(g, p, q) <==> p == q || StrictlyReaches(g, p, q)
  {
    if Reaches(g, p, q) && p != q {
      var n: nat :| ReachIn(g, p, q, n);
      var m :| m in g[p] && ReachIn(g, m, q, n - 1);
      assert Reaches(g, m, q);
    }
    if p == q {
      ReachesSelf(g, p);
    }
    if StrictlyReaches(g, p, q) {
      var m :| m in g[p] && Reaches(g, m, q);
      ReachInEdge(g, p, m);
      ReachesTransitive(g, p, m, q);
    }
  }

  /** A set that contains p and is closed under edges contains all that p reaches. */
  lemma {:induction false} ClosedSetHoldsReach(g: Links, S: set<Path>, p: Path, q: Path, n: nat)
    requires ReachIn(g, p, q, n) && p in S
    requires forall x, y :: x in S && x in g && y in g[x] ==> y in S
    ensures q in S
    decreases n
  {
    if n > 0 {
      var m :| m in g[p] && ReachIn(g, m, q, n - 1);
      ClosedSetHoldsReach(g, S, m, q, n - 1);
    }
  }

  /** What is reached over some edges is reached over more. */
  lemma {:induction false} SameEdgesReach(a: Links, b: Links, p: Path, q: Path, n: nat)
    requires a.Keys <= b.Keys && forall x, y :: x in a && y in a[x] ==> y in b[x]
    requires ReachIn(a, p, q, n)
    ensures ReachIn(b, p, q, n)
    decreases n
  {
    if n > 0 {
      var m :| m in a[p] && ReachIn(a, m, q, n - 1);
      SameEdgesReach(a, b, m, q, n - 1);
    }
  }

  // ---- going round a set of nodes ----------------------------------------

  /** The graph in which no walk goes on from a node of s. */
  function Cut(g: Links, s: set<Path>): Links
  {
    map p | p in g && p !in s :: g[p]
  }

  lemma CutReachesLess(g: Links, s: set<Path>, p: Path, q: Path)
    requires Reaches(Cut(g, s), p, q)
    ensures Reaches(g, p, q)
  {
    var n: nat :| ReachIn(Cut(g, s), p, q, n);
    SameEdgesReach(Cut(g, s), g, p, q, n);
  }

  /** Cutting nodes that are not reached anyway changes nothing. */
  lemma {:induction false} CutKeepsReach(g: Links, s: set<Path>, p: Path, q: Path, n: nat)
    requires ReachIn(g, p, q, n) && forall x :: Reaches(g, p, x) ==> x !in s
    ensures ReachIn(Cut(g, s), p, q, n)
    decreases n
  {
    if n > 0 {
      ReachesSelf(g, p);
      var m :| m in g[p] && ReachIn(g, m, q, n - 1);
      forall x | Reaches(g, m, x)
        ensures x !in s
      {
        ReachInEdge(g, p, m);
        ReachesTransitive(g, p, m, x);
      }
      CutKeepsReach(g, s, m, q, n - 1);
    }
  }

  /** A walk that avoids s and ends elsewhere leaves p for good by an edge to a node outside s. */
  lemma {:induction false} LeavesRound(g: Links, s: set<Path>, p: Path, q: Path, n: nat) returns (m: Path)
    requires ReachIn(Cut(g, s), p, q, n) && q != p && q !in s
    ensures p in g && m in g[p] && m !in s && m != p && Reaches(g, m, q)
    decreases n
  {
    var x :| x in Cut(g, s)[p] && ReachIn(Cut(g, s), x, q, n - 1);
    if x == p {
      m := LeavesRound(g, s, p, q, n - 1);
    } else {
      m := x;
      assert Reaches(Cut(g, s), x, q);
      CutReachesLess(g, s, x, q);
    }
  }

  /** A path without repetition. */
  ghost predicate IsTrail(g: Links, w: seq<Path>)
  {
    w != [] && NoDup(w) && Elems(w) <= g.Keys && forall i :: 0 <= i < |w| - 1 ==> w[i + 1] in g[w[i]]
  }

  /** q is reached from the end of the trail without touching the trail again. */
  ghost predicate ReachedRound(g: Links, w: seq<Path>, q: Path)
    requires w != []
  {
    var front := Elems(w[..|w| - 1]);
    q !in front && Reaches(Cut(g, front), w[|w| - 1], q)
  }

  /**
   Whatever the end of a trail reaches it also reaches without touching the trail
   again, except perhaps the start of the trail.
   */
  ghost predicate NoDetours(g: Links)
  {
    forall w, q :: IsTrail(g, w) && Reaches(g, w[|w| - 1], q) && q != w[0] ==> ReachedRound(g, w, q)
  }

  lemma {:induction false} TrailReaches(g: Links, w: seq<Path>, i: nat)
    requires IsTrail(g, w) && i < |w| - 1
    ensures StrictlyReaches(g, w[i], w[|w| - 1])
    decreases |w| - i
  {
    assert w[i] in Elems(w);
    if i == |w| - 2 {
      ReachesSelf(g, w[i + 1]);
    } else {
      TrailReaches(g, w, i + 1);
      ReachesUnfold(g, w[i + 1], w[|w| - 1]);
    }
  }

  /** A trail whose end leads back to one of its nodes closes a cycle. */
  lemma TrailCloses(g: Links, w: seq<Path>, i: nat)
    requires IsTrail(g, w) && i < |w| - 1 && Reaches(g, w[|w| - 1], w[i])
    ensures w[i] in g && StrictlyReaches(g, w[i], w[i])
  {
    TrailReaches(g, w, i);
    var m :| m in g[w[i]] && Reaches(g, m, w[|w| - 1]);
    ReachesTransitive(g, m, w[|w| - 1], w[i]);
  }

  lemma AcyclicHasNoDetours(g: Links)
    requires Acyclic(g)
    ensures NoDetours(g)
  {
    forall w, q | IsTrail(g, w) && Reaches(g, w[|w| - 1], q) && q != w[0]
      ensures ReachedRound(g, w, q)
    {
      var k := |w| - 1;
      forall i | 0 <= i < k
        ensures !Reaches(g, w[k], w[i])
      {
        if Reaches(g, w[k], w[i]) { TrailCloses(g, w, i); }
      }
      var n: nat :| ReachIn(g, w[k], q, n);
      CutKeepsReach(g, Elems(w[..k]), w[k], q, n);
    }
  }

  // ---- distance from a set of roots -------------------------------------

  /** p is n steps away from one of the roots along some walk. */
  ghost predicate FromRoots(g: Links, roots: set<Path>, p: Path, n: nat)
  {
    exists r :: r in roots && ReachIn(g, r, p, n)
  }

  ghost predicate IsDistance(g: Links, roots: set<Path>, p: Path, n: nat)
  {
    FromRoots(g, roots, p, n) && forall m: nat | m < n :: !FromRoots(g, roots, p, m)
  }

  lemma DistanceUnique(g: Links, roots: set<Path>, p: Path, a: nat, b: nat)
    requires IsDistance(g, roots, p, a) && IsDistance(g, roots, p, b)
    ensures a == b
  {
    assert !(a < b) && !(b < a);
  }
}
