/**
 The order in which a traversal lists tasks and the gate sorts them: depth first,
 each path before what is linked under it, and the gate's two lists in that order.
 */
module DepthFirst {
  import opened Sequences
  import opened Reachability
  import opened Publication

  /** Some link of this path is not listed yet. */
  ghost predicate IsOpen(g: Links, p: Path, listed: set<Path>)
    requires p in g
  {
    exists m :: m in g[p] && m !in listed
  }

  /** p is the first of these paths that is not listed yet. */
  ghost predicate FirstUnlisted(ps: seq<Path>, listed: set<Path>, p: Path)
  {
    exists j :: 0 <= j < |ps| && ps[j] == p && p !in listed && Elems(ps[..j]) <= listed
  }

  /**
   What comes after the tasks before: the next link of the latest path that has one
   left, or the next requested path if none has.
   */
  ghost predicate ComesNext(g: Links, roots: seq<Path>, before: seq<Path>, t: Task)
    requires Elems(before) <= g.Keys
  {
    assert forall k :: 0 <= k < |before| ==> before[k] in Elems(before);
    if t.isRoot then
      FirstUnlisted(roots, Elems(before), t.path)
      && forall k :: 0 <= k < |before| ==> !IsOpen(g, before[k], Elems(before))
    else
      exists k :: 0 <= k < |before| && FirstUnlisted(g[before[k]], Elems(before), t.path)
        && forall j :: k < j < |before| ==> !IsOpen(g, before[j], Elems(before))
  }

  /** The tasks stand in the order of a depth-first search, each path once. */
  ghost predicate InDepthFirstOrder(g: Links, roots: seq<Path>, tasks: seq<Task>, from: nat)
    requires TaskSet(tasks) <= g.Keys
  {
    forall i :: from <= i < |tasks| ==>
      Elems(TaskPaths(tasks)[..i]) <= g.Keys && ComesNext(g, roots, TaskPaths(tasks)[..i], tasks[i])
  }

  // ---- the place a traversal has reached ------------------------------------------------

  /** All paths from position k on have their links listed. */
  ghost predicate ClosedFrom(g: Links, before: seq<Path>, k: nat)
    requires Elems(before) <= g.Keys
  {
    assert forall j :: 0 <= j < |before| ==> before[j] in Elems(before);
    forall j :: k <= j < |before| ==> !IsOpen(g, before[j], Elems(before))
  }

  /** ps is what is left of the requested paths, or of the links of the path at position k. */
  ghost predicate AtPlace(g: Links, roots: seq<Path>, before: seq<Path>, ps: seq<Path>, isRoot: bool, k: nat)
    requires Elems(before) <= g.Keys
  {
    assert forall j :: 0 <= j < |before| ==> before[j] in Elems(before);
    if isRoot then
      ClosedFrom(g, before, 0) && LeftOver(roots, Elems(before), ps)
    else
      k < |before| && ClosedFrom(g, before, k + 1) && LeftOver(g[before[k]], Elems(before), ps)
  }

  /** The paths before those left are listed. */
  ghost predicate LeftOver(all: seq<Path>, listed: set<Path>, ps: seq<Path>)
  {
    |ps| <= |all| && all[|all| - |ps|..] == ps && Elems(all[..|all| - |ps|]) <= listed
  }

  lemma LeftOverNext(all: seq<Path>, listed: set<Path>, ps: seq<Path>, more: set<Path>)
    requires LeftOver(all, listed, ps) && ps != [] && listed <= more && ps[0] in more
    ensures LeftOver(all, more, ps[1..])
  {
    var n := |all| - |ps|;
    assert all[..n + 1] == all[..n] + [ps[0]];
    ElemsAppend(all[..n], ps[0]);
    assert all[n + 1..] == all[n..][1..];
  }

  lemma FirstIsNext(all: seq<Path>, listed: set<Path>, ps: seq<Path>)
    requires LeftOver(all, listed, ps) && ps != [] && ps[0] !in listed
    ensures FirstUnlisted(all, listed, ps[0])
  {
    assert all[|all| - |ps|] == ps[0];
  }

  lemma NextAtPlace(g: Links, roots: seq<Path>, before: seq<Path>, ps: seq<Path>, isRoot: bool, k: nat)
    requires Elems(before) <= g.Keys && AtPlace(g, roots, before, ps, isRoot, k) && ps != []
    requires ps[0] !in Elems(before)
    ensures ComesNext(g, roots, before, Task(ps[0], isRoot))
  {
    if isRoot {
      FirstIsNext(roots, Elems(before), ps);
    } else {
      assert before[k] in Elems(before);
      FirstIsNext(g[before[k]], Elems(before), ps);
    }
  }

  /** The links of a path just listed are all left. */
  lemma BelowAtPlace(g: Links, roots: seq<Path>, before: seq<Path>, p: Path)
    requires p in g && Elems(before + [p]) <= g.Keys
    ensures AtPlace(g, roots, before + [p], g[p], false, |before|)
  {
    var now := before + [p];
    assert now[|before|] == p && g[p][..0] == [] && Elems<Path>([]) == {};
    assert g[p][|g[p]| - |g[p]|..] == g[p];
  }

  /** More paths, all their links listed, change nothing about the place but what is left. */
  lemma LaterAtPlace(g: Links, roots: seq<Path>, before: seq<Path>, after: seq<Path>, ps: seq<Path>, isRoot: bool,
                     k: nat)
    requires Elems(before) <= g.Keys && Elems(after) <= g.Keys && before <= after
    requires AtPlace(g, roots, before, ps, isRoot, k) && ps != [] && ps[0] in Elems(after)
    requires ClosedFrom(g, after, |before|)
    ensures AtPlace(g, roots, after, ps[1..], isRoot, k)
  {
    assert Elems(before) <= Elems(after) by { assert forall x :: x in before ==> x in after; }
    var from := if isRoot then 0 else k + 1;
    forall j | from <= j < |after|
      ensures !IsOpen(g, after[j], Elems(after))
    {
      assert after[j] in Elems(after);
      if j < |before| {
        assert before[j] in Elems(before) && !IsOpen(g, before[j], Elems(before));
      }
    }
    if isRoot {
      LeftOverNext(roots, Elems(before), ps, Elems(after));
    } else {
      assert before[k] in Elems(before) && after[k] == before[k];
      LeftOverNext(g[before[k]], Elems(before), ps, Elems(after));
    }
  }

  // ---- the traversal ------------------------------------------------------------------------

  lemma NewAreClosed(g: Links, ps: seq<Path>, isRoot: bool, tasks: seq<Task>, r: seq<Task>)
    requires Added(g, ps, isRoot, tasks, r) && TaskSet(r) <= g.Keys
    ensures Elems(TaskPaths(r)) <= g.Keys && ClosedFrom(g, TaskPaths(r), |tasks|)
  {
    TaskSetIsPaths(r);
    var paths := TaskPaths(r);
    forall j | |tasks| <= j < |paths|
      ensures paths[j] in g && !IsOpen(g, paths[j], Elems(paths))
    {
      assert r[j] in r[|tasks|..];
      assert LinksListed(g, r[j].path, TaskSet(r));
    }
  }

  lemma OrderExtends(g: Links, roots: seq<Path>, a: seq<Task>, b: seq<Task>, from: nat)
    requires a <= b && TaskSet(a) <= g.Keys && TaskSet(b) <= g.Keys && from <= |a|
    requires InDepthFirstOrder(g, roots, a, from) && InDepthFirstOrder(g, roots, b, |a|)
    ensures InDepthFirstOrder(g, roots, b, from)
  {
    forall i | from <= i < |b|
      ensures Elems(TaskPaths(b)[..i]) <= g.Keys && ComesNext(g, roots, TaskPaths(b)[..i], b[i])
    {
      if i < |a| {
        assert TaskPaths(b)[..i] == TaskPaths(a)[..i];
      }
    }
  }

  lemma {:induction false} CollectInOrder(g: Links, roots: seq<Path>, ps: seq<Path>, isRoot: bool, tasks: seq<Task>,
                                          k: nat)
    requires Closed(g) && ps != [] && ps[0] in g && TaskSet(tasks) <= g.Keys && NoDup(TaskPaths(tasks))
    requires Elems(TaskPaths(tasks)) <= g.Keys && AtPlace(g, roots, TaskPaths(tasks), ps, isRoot, k)
    ensures InDepthFirstOrder(g, roots, Collect(g, ps[0], isRoot, tasks), |tasks|)
    decreases g.Keys - TaskSet(tasks), 0
  {
    var p := ps[0];
    TaskSetIsPaths(tasks);
    if p !in TaskSet(tasks) {
      var t := Task(p, isRoot);
      var tasks' := tasks + [t];
      TaskSetAppend(tasks, t);
      assert g.Keys - TaskSet(tasks') < g.Keys - TaskSet(tasks) by { assert p in g.Keys - TaskSet(tasks); }
      FirstVisitKeepsNoDup(tasks, t);
      TaskSetIsPaths(tasks');
      assert TaskPaths(tasks') == TaskPaths(tasks) + [p];
      CollectNew(g, p, isRoot, tasks);
      hide *;
      NextAtPlace(g, roots, TaskPaths(tasks), ps, isRoot, k);
      BelowAtPlace(g, roots, TaskPaths(tasks), p);
      CollectAllInOrder(g, roots, g[p], false, tasks', |tasks|);
      OneMoreInOrder(g, roots, tasks, t);
      OrderExtends(g, roots, tasks', CollectAll(g, g[p], false, tasks'), |tasks|);
    }
  }

  lemma OneMoreInOrder(g: Links, roots: seq<Path>, tasks: seq<Task>, t: Task)
    requires TaskSet(tasks + [t]) <= g.Keys && Elems(TaskPaths(tasks)) <= g.Keys
    requires ComesNext(g, roots, TaskPaths(tasks), t)
    ensures InDepthFirstOrder(g, roots, tasks + [t], |tasks|)
  {
    assert TaskPaths(tasks + [t])[..|tasks|] == TaskPaths(tasks);
  }

  lemma {:induction false} CollectAllInOrder(g: Links, roots: seq<Path>, ps: seq<Path>, isRoot: bool, tasks: seq<Task>,
                                             k: nat)
    requires Closed(g) && Elems(ps) <= g.Keys && TaskSet(tasks) <= g.Keys && NoDup(TaskPaths(tasks))
    requires Elems(TaskPaths(tasks)) <= g.Keys && AtPlace(g, roots, TaskPaths(tasks), ps, isRoot, k)
    ensures InDepthFirstOrder(g, roots, CollectAll(g, ps, isRoot, tasks), |tasks|)
    decreases g.Keys - TaskSet(tasks), |ps| + 1
  {
    if ps == [] {
      NothingInOrder(g, roots, isRoot, tasks);
    } else {
      assert ps[0] in Elems(ps);
      var r := Collect(g, ps[0], isRoot, tasks);
      assert Elems(ps[1..]) <= Elems(ps);
      CollectNext(g, ps, isRoot, tasks, r);
      CollectInOrder(g, roots, ps, isRoot, tasks, k);
      CollectAdds(g, ps[0], isRoot, tasks);
      FirstIsListed(g, ps[0], isRoot, tasks, r);
      NewAreClosed(g, [ps[0]], isRoot, tasks, r);
      PathsExtend(tasks, r);
      hide *;
      LaterAtPlace(g, roots, TaskPaths(tasks), TaskPaths(r), ps, isRoot, k);
      CollectAllInOrder(g, roots, ps[1..], isRoot, r, k);
      OrderExtends(g, roots, r, CollectAll(g, ps[1..], isRoot, r), |tasks|);
    }
  }

  lemma NothingInOrder(g: Links, roots: seq<Path>, isRoot: bool, tasks: seq<Task>)
    requires Closed(g) && Elems<Path>([]) <= g.Keys && TaskSet(tasks) <= g.Keys
    ensures InDepthFirstOrder(g, roots, CollectAll(g, [], isRoot, tasks), |tasks|)
  {
    CollectNone(g, isRoot, tasks);
  }

  lemma FirstIsListed(g: Links, p: Path, isRoot: bool, tasks: seq<Task>, r: seq<Task>)
    requires Added(g, [p], isRoot, tasks, r)
    ensures p in Elems(TaskPaths(r)) && NoDup(TaskPaths(r))
  {
    assert p in Elems([p]);
    TaskSetIsPaths(r);
  }

  lemma PathsExtend(a: seq<Task>, b: seq<Task>)
    requires a <= b
    ensures TaskPaths(a) <= TaskPaths(b)
  {
  }

  /**
   The task list is the depth-first order of the graph: each task is the next link of
   the latest path that has one left, flagged false, or else the next requested path,
   flagged true.
   */
  lemma FlattenIsDepthFirst(g: Links, roots: seq<Path>)
    requires Closed(g) && Elems(roots) <= g.Keys
    ensures TaskSet(Flatten(g, roots)) <= g.Keys && InDepthFirstOrder(g, roots, Flatten(g, roots), 0)
  {
    assert TaskSet([]) == {} && TaskPaths([]) == [] && Elems<Path>([]) == {};
    assert roots[|roots| - |roots|..] == roots && roots[..0] == [];
    assert AtPlace(g, roots, [], roots, true, 0);
    CollectAllInOrder(g, roots, roots, true, [], 0);
  }

  // ---- the gate ---------------------------------------------------------------------------------

  lemma {:induction false} GateKeepsOrder(g: Links, up: set<Path>, order: seq<Path>)
    returns (at: seq<nat>, not: seq<nat>)
    requires Closed(g) && Elems(order) <= g.Keys
    ensures Picks(order, at, Gate(g, up, order).published) && Picks(order, not, Gate(g, up, order).excluded)
  {
    at, not := [], [];
    if order != [] {
      var n := |order| - 1;
      assert order == order[..n] + [order[n]];
      assert Elems(order[..n]) <= Elems(order) && order[n] in Elems(order);
      at, not := GateKeepsOrder(g, up, order[..n]);
      var before, after := Gate(g, up, order[..n]), Gate(g, up, order);
      PicksNext(order[..n], order[n], at, before.published);
      PicksNext(order[..n], order[n], not, before.excluded);
      if after.published != before.published {
        at := at + [n];
      }
      if after.excluded != before.excluded {
        not := not + [n];
      }
    }
  }

  /** Published and excluded paths come in the order of the task list. */
  lemma ReceiptsInOrder(g: Links, up: set<Path>, roots: seq<Path>)
    requires Closed(g) && Elems(roots) <= g.Keys
    ensures exists at :: Picks(TaskPaths(Flatten(g, roots)), at, CompleteReceipts(g, up, roots).published)
    ensures exists at :: Picks(TaskPaths(Flatten(g, roots)), at, CompleteReceipts(g, up, roots).excluded)
  {
    TaskSetIsPaths(Flatten(g, roots));
    var order := TaskPaths(Flatten(g, roots));
    var at, not := GateKeepsOrder(g, up, order);
    hide Picks, Gate;
    assert Picks(order, at, CompleteReceipts(g, up, roots).published);
    assert Picks(order, not, CompleteReceipts(g, up, roots).excluded);
  }
}
