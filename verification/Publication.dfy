/**
 Which uploads and which publications a result graph leads to.

 Collect is the deduplicating depth-first traversal that lists the upload tasks;
 the publication gate follows the same order. Complete is the memoised
 completeness check of that gate, written with its memo passed along, so that
 its exactness on acyclic graphs and its limits on cyclic ones are lemmas.
 */
module Publication {
  import opened Sequences
  import opened Reachability

  datatype Task = Task(path: Path, isRoot: bool)

  function TaskPaths(tasks: seq<Task>): (ps: seq<Path>)
    ensures |ps| == |tasks| && forall i :: 0 <= i < |tasks| ==> ps[i] == tasks[i].path
  {
    seq(|tasks|, i requires 0 <= i < |tasks| => tasks[i].path)
  }

  function TaskSet(tasks: seq<Task>): set<Path>
  {
    set t | t in tasks :: t.path
  }

  lemma TaskSetIsPaths(tasks: seq<Task>)
    ensures TaskSet(tasks) == Elems(TaskPaths(tasks))
  {
    forall p | p in TaskSet(tasks)
      ensures p in TaskPaths(tasks)
    {
      var i :| 0 <= i < |tasks| && tasks[i].path == p;
      assert TaskPaths(tasks)[i] == p;
    }
  }

  lemma TaskSetAppend(tasks: seq<Task>, t: Task)
    ensures TaskSet(tasks + [t]) == TaskSet(tasks) + {t.path}
  {
    assert forall x :: x in tasks + [t] <==> x in tasks || x == t;
  }

  /** The tasks after a first visit to p: p itself, then what its links add. */
  ghost function Collect(g: Links, p: Path, isRoot: bool, tasks: seq<Task>): (r: seq<Task>)
    requires Closed(g) && p in g && TaskSet(tasks) <= g.Keys
    ensures tasks <= r && TaskSet(r) <= g.Keys
    decreases g.Keys - TaskSet(tasks), 0
  {
    if p in TaskSet(tasks) then tasks
    else
      var tasks' := tasks + [Task(p, isRoot)];
      TaskSetAppend(tasks, Task(p, isRoot));
      assert g.Keys - TaskSet(tasks') < g.Keys - TaskSet(tasks) by { assert p in g.Keys - TaskSet(tasks); }
      CollectAll(g, g[p], false, tasks')
  }

  ghost function CollectAll(g: Links, ps: seq<Path>, isRoot: bool, tasks: seq<Task>): (r: seq<Task>)
    requires Closed(g) && Elems(ps) <= g.Keys && TaskSet(tasks) <= g.Keys
    ensures tasks <= r && TaskSet(r) <= g.Keys
    decreases g.Keys - TaskSet(tasks), |ps| + 1
  {
    if ps == [] then tasks
    else
      assert ps[0] in Elems(ps);
      var tasks' := Collect(g, ps[0], isRoot, tasks);
      assert forall t :: t in tasks ==> t in tasks';
      assert TaskSet(tasks) <= TaskSet(tasks');
      CollectAll(g, ps[1..], isRoot, tasks')
  }

  /** Listing goes on from what the first path has listed. */
  lemma CollectNext(g: Links, ps: seq<Path>, isRoot: bool, before: seq<Task>, between: seq<Task>)
    requires Closed(g) && ps != [] && Elems(ps) <= g.Keys && Elems(ps[1..]) <= g.Keys && ps[0] in g
    requires TaskSet(before) <= g.Keys && TaskSet(between) <= g.Keys
    requires Collect(g, ps[0], isRoot, before) == between
    ensures CollectAll(g, ps, isRoot, before) == CollectAll(g, ps[1..], isRoot, between)
    ensures TaskSet(before) <= TaskSet(between)
  {
    hide Collect;
    assert forall t :: t in before ==> t in between;
  }

  /** A new path is listed before what is linked under it. */
  lemma CollectNew(g: Links, p: Path, isRoot: bool, tasks: seq<Task>)
    requires Closed(g) && p in g && TaskSet(tasks) <= g.Keys && p !in TaskSet(tasks)
    ensures TaskSet(tasks + [Task(p, isRoot)]) == TaskSet(tasks) + {p} && Elems(g[p]) <= g.Keys
    ensures Collect(g, p, isRoot, tasks) == CollectAll(g, g[p], false, tasks + [Task(p, isRoot)])
  {
    TaskSetAppend(tasks, Task(p, isRoot));
    hide CollectAll, TaskSet;
  }

  lemma CollectNone(g: Links, isRoot: bool, tasks: seq<Task>)
    requires Closed(g) && Elems<Path>([]) <= g.Keys && TaskSet(tasks) <= g.Keys
    ensures CollectAll(g, [], isRoot, tasks) == tasks
  {
  }

  /** The upload tasks of the given roots, every reachable path once. */
  ghost function Flatten(g: Links, roots: seq<Path>): seq<Task>
    requires Closed(g) && Elems(roots) <= g.Keys
  {
    CollectAll(g, roots, true, [])
  }

  // ---- what the traversal lists ------------------------------------------

  ghost predicate LinkTarget(g: Links, q: Path)
  {
    exists x :: x in g && q in g[x]
  }

  ghost predicate FromSome(g: Links, ps: seq<Path>, q: Path)
  {
    exists p :: p in ps && Reaches(g, p, q)
  }

  /** One new task of a traversal of ps: where it comes from and how it is flagged. */
  ghost predicate GoodTask(g: Links, ps: seq<Path>, isRoot: bool, t: Task)
  {
    && FromSome(g, ps, t.path)
    && (t.isRoot ==> isRoot && t.path in ps)
    && (!t.isRoot ==> LinkTarget(g, t.path) || (!isRoot && t.path in ps))
  }

  ghost predicate LinksListed(g: Links, p: Path, listed: set<Path>)
  {
    p in g && forall q :: q in g[p] ==> q in listed
  }

  /** What traversing ps adds to the tasks it starts from. */
  ghost predicate Added(g: Links, ps: seq<Path>, isRoot: bool, tasks: seq<Task>, r: seq<Task>)
  {
    && tasks <= r
    && NoDup(TaskPaths(r))
    && Elems(ps) <= TaskSet(r)
    && (forall t :: t in r[|tasks|..] ==> LinksListed(g, t.path, TaskSet(r)))
    && (forall t :: t in r[|tasks|..] ==> GoodTask(g, ps, isRoot, t))
  }

  lemma AddedTransitive(g: Links, ps: seq<Path>, isRoot: bool, a: seq<Task>, b: seq<Task>, c: seq<Task>)
    requires ps != [] && Added(g, [ps[0]], isRoot, a, b) && Added(g, ps[1..], isRoot, b, c)
    ensures Added(g, ps, isRoot, a, c)
  {
    assert ps == [ps[0]] + ps[1..];
    assert ps[0] in Elems([ps[0]]);
    assert TaskSet(b) <= TaskSet(c) by { assert forall t :: t in b ==> t in c; }
    forall p | p in Elems(ps)
      ensures p in TaskSet(c)
    {
      if p != ps[0] { assert p in Elems(ps[1..]); }
    }
    forall t | t in c[|a|..]
      ensures LinksListed(g, t.path, TaskSet(c)) && GoodTask(g, ps, isRoot, t)
    {
      var i :| |a| <= i < |c| && c[i] == t;
      if i < |b| {
        assert b[i] == t && t in b[|a|..];
        assert GoodTask(g, [ps[0]], isRoot, t);
        var p :| p in [ps[0]] && Reaches(g, p, t.path);
        assert p in ps;
      } else {
        assert t in c[|b|..];
        var p :| p in ps[1..] && Reaches(g, p, t.path);
        assert p in ps;
      }
    }
  }

  lemma {:induction false} CollectAdds(g: Links, p: Path, isRoot: bool, tasks: seq<Task>)
    requires Closed(g) && p in g && TaskSet(tasks) <= g.Keys && NoDup(TaskPaths(tasks))
    ensures Added(g, [p], isRoot, tasks, Collect(g, p, isRoot, tasks))
    decreases g.Keys - TaskSet(tasks), 0
  {
    if p !in TaskSet(tasks) {
      var head := Task(p, isRoot);
      var tasks' := tasks + [head];
      TaskSetAppend(tasks, head);
      assert g.Keys - TaskSet(tasks') < g.Keys - TaskSet(tasks) by { assert p in g.Keys - TaskSet(tasks); }
      FirstVisitKeepsNoDup(tasks, head);
      CollectAllAdds(g, g[p], false, tasks');
      var r := CollectAll(g, g[p], false, tasks');
      forall t | t in r[|tasks|..]
        ensures LinksListed(g, t.path, TaskSet(r)) && GoodTask(g, [p], isRoot, t)
      {
        var i :| |tasks| <= i < |r| && r[i] == t;
        ReachesSelf(g, p);
        if i == |tasks| {
          assert t == tasks'[i] == head;
          assert forall q :: q in g[p] ==> q in Elems(g[p]);
          assert p in [p];
        } else {
          assert t in r[|tasks'|..];
          var m :| m in g[p] && Reaches(g, m, t.path);
          ReachInEdge(g, p, m);
          ReachesTransitive(g, p, m, t.path);
          assert p in [p];
          assert LinkTarget(g, t.path) by { if t.path in g[p] { assert p in g && t.path in g[p]; } }
        }
      }
      assert tasks'[|tasks|] == head && head in r;
    }
  }

  lemma FirstVisitKeepsNoDup(tasks: seq<Task>, t: Task)
    requires NoDup(TaskPaths(tasks)) && t.path !in TaskSet(tasks)
    ensures NoDup(TaskPaths(tasks + [t]))
  {
    var ps := TaskPaths(tasks + [t]);
    forall i, j | 0 <= i < j < |ps|
      ensures ps[i] != ps[j]
    {
      assert tasks[i] in tasks;
      if j < |tasks| { assert TaskPaths(tasks)[i] != TaskPaths(tasks)[j]; }
    }
  }

  lemma {:induction false} CollectAllAdds(g: Links, ps: seq<Path>, isRoot: bool, tasks: seq<Task>)
    requires Closed(g) && Elems(ps) <= g.Keys && TaskSet(tasks) <= g.Keys && NoDup(TaskPaths(tasks))
    ensures Added(g, ps, isRoot, tasks, CollectAll(g, ps, isRoot, tasks))
    decreases g.Keys - TaskSet(tasks), |ps| + 1
  {
    if ps != [] {
      assert ps[0] in Elems(ps);
      var tasks' := Collect(g, ps[0], isRoot, tasks);
      assert TaskSet(tasks) <= TaskSet(tasks') by { assert forall t :: t in tasks ==> t in tasks'; }
      CollectAdds(g, ps[0], isRoot, tasks);
      CollectAllAdds(g, ps[1..], isRoot, tasks');
      AddedTransitive(g, ps, isRoot, tasks, tasks', CollectAll(g, ps[1..], isRoot, tasks'));
    }
  }

  /**
   The task list holds each path reachable from the roots exactly once. A path
   that no result links to is flagged as a root exactly when it was requested.
   */
  lemma FlattenListsReachable(g: Links, roots: seq<Path>)
    requires Closed(g) && Elems(roots) <= g.Keys
    ensures NoDup(TaskPaths(Flatten(g, roots)))
    ensures forall p :: p in TaskPaths(Flatten(g, roots)) <==> FromSome(g, roots, p)
    ensures forall t :: t in Flatten(g, roots) && t.isRoot ==> t.path in roots
    ensures forall t :: t in Flatten(g, roots) && !LinkTarget(g, t.path) ==> t.isRoot
  {
    var r := Flatten(g, roots);
    assert TaskSet([]) == {} && TaskPaths([]) == [];
    CollectAllAdds(g, roots, true, []);
    assert r[0..] == r;
    TaskSetIsPaths(r);
    forall p
      ensures p in TaskPaths(r) <==> FromSome(g, roots, p)
    {
      if FromSome(g, roots, p) {
        var s :| s in roots && Reaches(g, s, p);
        var n: nat :| ReachIn(g, s, p, n);
        assert s in Elems(roots);
        assert forall x, y :: x in TaskSet(r) && x in g && y in g[x] ==> y in TaskSet(r);
        ClosedSetHoldsReach(g, TaskSet(r), s, p, n);
        assert p in Elems(TaskPaths(r));
      }
      if p in TaskPaths(r) {
        assert p in TaskSet(r);
        var t :| t in r && t.path == p;
        assert GoodTask(g, roots, true, t);
      }
    }
  }

  /** When no link leads back to a requested path, the flags are exact. */
  lemma FlattenFlagsRoots(g: Links, roots: seq<Path>)
    requires Closed(g) && Elems(roots) <= g.Keys
    requires forall p, q :: p in g && q in g[p] ==> q !in roots
    ensures forall t :: t in Flatten(g, roots) ==> (t.isRoot <==> t.path in roots)
  {
    FlattenListsReachable(g, roots);
    forall t | t in Flatten(g, roots) && t.path in roots
      ensures t.isRoot
    {
      assert !LinkTarget(g, t.path);
    }
  }

  // ---- the completeness check ----------------------------------------------

  type Memo = map<Path, bool>

  datatype Checked = Checked(ok: bool, memo: Memo)

  /** Looks p up in the memo, or decides it after marking it as in progress. */
  ghost function Complete(g: Links, up: set<Path>, p: Path, memo: Memo): (r: Checked)
    requires Closed(g) && p in g && memo.Keys <= g.Keys
    ensures memo.Keys + {p} <= r.memo.Keys <= g.Keys && r.memo[p] == r.ok
    decreases g.Keys - memo.Keys, 0
  {
    if p in memo then Checked(memo[p], memo)
    else
      assert g.Keys - memo[p := true].Keys < g.Keys - memo.Keys by { assert p in g.Keys - memo.Keys; }
      var below := CompleteAll(g, up, g[p], memo[p := true]);
      var ok := p in up && below.ok;
      Checked(ok, below.memo[p := ok])
  }

  ghost function CompleteAll(g: Links, up: set<Path>, ps: seq<Path>, memo: Memo): (r: Checked)
    requires Closed(g) && Elems(ps) <= g.Keys && memo.Keys <= g.Keys
    ensures memo.Keys <= r.memo.Keys <= g.Keys
    decreases g.Keys - memo.Keys, |ps| + 1
  {
    if ps == [] then Checked(true, memo)
    else
      assert ps[0] in Elems(ps);
      var first := Complete(g, up, ps[0], memo);
      assert memo.Keys <= first.memo.Keys;
      var rest := CompleteAll(g, up, ps[1..], first.memo);
      Checked(first.ok && rest.ok, rest.memo)
  }

  /** What the memo is meant to say: everything p reaches was uploaded. */
  ghost predicate ClosureUploaded(g: Links, up: set<Path>, p: Path)
  {
    forall q :: Reaches(g, p, q) ==> q in up
  }

  lemma ClosureUploadedUnfold(g: Links, up: set<Path>, p: Path)
    requires p in g
    ensures ClosureUploaded(g, up, p) <==> p in up && forall m :: m in g[p] ==> ClosureUploaded(g, up, m)
  {
    ReachesSelf(g, p);
    if ClosureUploaded(g, up, p) {
      forall m, q | m in g[p] && Reaches(g, m, q)
        ensures q in up
      {
        ReachInEdge(g, p, m);
        ReachesTransitive(g, p, m, q);
      }
    }
    if p in up && forall m :: m in g[p] ==> ClosureUploaded(g, up, m) {
      forall q | Reaches(g, p, q)
        ensures q in up
      {
        ReachesUnfold(g, p, q);
        if p != q {
          var m :| m in g[p] && Reaches(g, m, q);
          assert ClosureUploaded(g, up, m);
        }
      }
    }
  }

  /** Entries outside active are exact. */
  ghost predicate ExactOutside(g: Links, up: set<Path>, memo: Memo, active: set<Path>)
  {
    forall q :: q in memo && q !in active ==> (memo[q] <==> ClosureUploaded(g, up, q))
  }

  /** What is decided stays decided. */
  lemma {:induction false} CompleteKeeps(g: Links, up: set<Path>, p: Path, memo: Memo)
    requires Closed(g) && p in g && memo.Keys <= g.Keys
    ensures forall x :: x in memo ==> Complete(g, up, p, memo).memo[x] == memo[x]
    decreases g.Keys - memo.Keys, 0
  {
    if p !in memo {
      assert g.Keys - memo[p := true].Keys < g.Keys - memo.Keys by { assert p in g.Keys - memo.Keys; }
      CompleteAllKeeps(g, up, g[p], memo[p := true]);
    }
  }

  lemma {:induction false} CompleteAllKeeps(g: Links, up: set<Path>, ps: seq<Path>, memo: Memo)
    requires Closed(g) && Elems(ps) <= g.Keys && memo.Keys <= g.Keys
    ensures forall x :: x in memo ==> CompleteAll(g, up, ps, memo).memo[x] == memo[x]
    decreases g.Keys - memo.Keys, |ps| + 1
  {
    if ps != [] {
      assert ps[0] in Elems(ps);
      var first := Complete(g, up, ps[0], memo);
      assert memo.Keys <= first.memo.Keys;
      CompleteKeeps(g, up, ps[0], memo);
      CompleteAllKeeps(g, up, ps[1..], first.memo);
    }
  }

  /** The paths in progress: a trail that starts at an uploaded path, each marked as if complete. */
  ghost predicate InProgress(g: Links, up: set<Path>, memo: Memo, stack: seq<Path>)
  {
    && (stack != [] ==> IsTrail(g, stack) && stack[0] in up)
    && forall a :: a in stack ==> a in memo && memo[a]
  }

  /** p is where the check goes next: below the last path in progress, or an uploaded path to begin with. */
  ghost predicate NextBelow(g: Links, up: set<Path>, stack: seq<Path>, p: Path)
  {
    p in g && if stack == [] then p in up else stack[|stack| - 1] in g && p in g[stack[|stack| - 1]]
  }

  /** Without detours, what p reaches is decided by its links outside the paths in progress. */
  lemma LinksDecide(g: Links, up: set<Path>, stack: seq<Path>, p: Path)
    requires NoDetours(g) && IsTrail(g, stack + [p]) && (stack + [p])[0] in up
    ensures ClosureUploaded(g, up, p) <==>
            p in up && forall m :: m in g[p] ==> m in stack + [p] || ClosureUploaded(g, up, m)
  {
    var w := stack + [p];
    assert p in Elems(w) && p in g;
    ClosureUploadedUnfold(g, up, p);
    if p in up && forall m :: m in g[p] ==> m in w || ClosureUploaded(g, up, m) {
      forall q | Reaches(g, p, q)
        ensures q in up
      {
        if q != p && q != w[0] {
          assert w[..|w| - 1] == stack && w[|w| - 1] == p;
          assert ReachedRound(g, w, q);
          var n: nat :| ReachIn(Cut(g, Elems(stack)), p, q, n);
          var m := LeavesRound(g, Elems(stack), p, q, n);
          assert m !in stack && m !in w;
          assert ClosureUploaded(g, up, m);
        }
      }
    }
  }

  /**
   On a graph without detours the memoised check is exact: taking a path in
   progress for complete hides nothing that is not found another way.
   */
  lemma {:induction false} CompleteExact(g: Links, up: set<Path>, p: Path, memo: Memo, stack: seq<Path>)
    requires Closed(g) && NoDetours(g) && memo.Keys <= g.Keys
    requires InProgress(g, up, memo, stack) && NextBelow(g, up, stack, p) && ExactOutside(g, up, memo, Elems(stack))
    ensures ExactOutside(g, up, Complete(g, up, p, memo).memo, Elems(stack))
    ensures Complete(g, up, p, memo).ok <==> p in stack || ClosureUploaded(g, up, p)
    decreases g.Keys - memo.Keys, 0
  {
    if p !in memo {
      assert g.Keys - memo[p := true].Keys < g.Keys - memo.Keys by { assert p in g.Keys - memo.Keys; }
      var stack' := stack + [p];
      TrailGrows(g, up, memo, stack, p);
      CompleteAllExact(g, up, g[p], memo[p := true], stack');
      LinksDecide(g, up, stack, p);
      hide InProgress, NextBelow, NoDetours, CompleteAll;
      assert forall x :: x in Elems(stack') <==> x in Elems(stack) || x == p;
    }
  }

  lemma TrailGrows(g: Links, up: set<Path>, memo: Memo, stack: seq<Path>, p: Path)
    requires InProgress(g, up, memo, stack) && NextBelow(g, up, stack, p) && p !in memo
    ensures IsTrail(g, stack + [p]) && (stack + [p])[0] in up
    ensures InProgress(g, up, memo[p := true], stack + [p])
  {
    ElemsAppend(stack, p);
    assert p !in stack;
  }

  lemma {:induction false} CompleteAllExact(g: Links, up: set<Path>, ps: seq<Path>, memo: Memo, stack: seq<Path>)
    requires Closed(g) && NoDetours(g) && Elems(ps) <= g.Keys && memo.Keys <= g.Keys
    requires InProgress(g, up, memo, stack) && ExactOutside(g, up, memo, Elems(stack))
    requires forall p :: p in ps ==> NextBelow(g, up, stack, p)
    ensures ExactOutside(g, up, CompleteAll(g, up, ps, memo).memo, Elems(stack))
    ensures CompleteAll(g, up, ps, memo).ok <==> forall p :: p in ps ==> p in stack || ClosureUploaded(g, up, p)
    decreases g.Keys - memo.Keys, |ps| + 1
  {
    if ps != [] {
      assert ps[0] in Elems(ps);
      var first := Complete(g, up, ps[0], memo);
      assert memo.Keys <= first.memo.Keys;
      CompleteExact(g, up, ps[0], memo, stack);
      CompleteKeeps(g, up, ps[0], memo);
      CompleteAllExact(g, up, ps[1..], first.memo, stack);
      assert ps == [ps[0]] + ps[1..];
    }
  }

  /** On any graph, cyclic or not, an entry that says incomplete is right. */
  ghost predicate FalseIsSound(g: Links, up: set<Path>, memo: Memo)
  {
    forall q :: q in memo && !memo[q] ==> !ClosureUploaded(g, up, q)
  }

  lemma {:induction false} CompleteFalseIsSound(g: Links, up: set<Path>, p: Path, memo: Memo)
    requires Closed(g) && p in g && memo.Keys <= g.Keys && FalseIsSound(g, up, memo)
    ensures FalseIsSound(g, up, Complete(g, up, p, memo).memo)
    decreases g.Keys - memo.Keys, 0
  {
    if p !in memo {
      assert g.Keys - memo[p := true].Keys < g.Keys - memo.Keys by { assert p in g.Keys - memo.Keys; }
      CompleteAllFalseIsSound(g, up, g[p], memo[p := true]);
      ClosureUploadedUnfold(g, up, p);
    }
  }

  lemma {:induction false} CompleteAllFalseIsSound(g: Links, up: set<Path>, ps: seq<Path>, memo: Memo)
    requires Closed(g) && Elems(ps) <= g.Keys && memo.Keys <= g.Keys && FalseIsSound(g, up, memo)
    ensures FalseIsSound(g, up, CompleteAll(g, up, ps, memo).memo)
    ensures !CompleteAll(g, up, ps, memo).ok ==> exists p :: p in ps && !ClosureUploaded(g, up, p)
    decreases g.Keys - memo.Keys, |ps| + 1
  {
    if ps != [] {
      assert ps[0] in Elems(ps);
      var first := Complete(g, up, ps[0], memo);
      assert memo.Keys <= first.memo.Keys;
      CompleteFalseIsSound(g, up, ps[0], memo);
      CompleteAllFalseIsSound(g, up, ps[1..], first.memo);
      if !first.ok {
        assert !ClosureUploaded(g, up, ps[0]);
      } else if !CompleteAll(g, up, ps[1..], first.memo).ok {
        var p :| p in ps[1..] && !ClosureUploaded(g, up, p);
        assert p in ps;
      }
    }
  }

  // ---- the gate --------------------------------------------------------------

  datatype Gated = Gated(memo: Memo, published: seq<Path>, excluded: seq<Path>)

  /** The gate after visiting the paths of order, one by one. */
  ghost function Gate(g: Links, up: set<Path>, order: seq<Path>): (r: Gated)
    requires Closed(g) && Elems(order) <= g.Keys
    ensures r.memo.Keys <= g.Keys
  {
    if order == [] then Gated(map[], [], [])
    else
      var n := |order| - 1;
      assert order == order[..n] + [order[n]];
      assert Elems(order[..n]) <= Elems(order) && order[n] in Elems(order);
      GateStep(g, up, Gate(g, up, order[..n]), order[n])
  }

  ghost function GateStep(g: Links, up: set<Path>, before: Gated, p: Path): (r: Gated)
    requires Closed(g) && p in g && before.memo.Keys <= g.Keys
    ensures r.memo.Keys <= g.Keys
  {
    if p !in up then before
    else
      var check := Complete(g, up, p, before.memo);
      if check.ok then Gated(check.memo, before.published + [p], before.excluded)
      else Gated(check.memo, before.published, before.excluded + [p])
  }

  ghost function CompleteReceipts(g: Links, up: set<Path>, roots: seq<Path>): Gated
    requires Closed(g) && Elems(roots) <= g.Keys
  {
    TaskSetIsPaths(Flatten(g, roots));
    Gate(g, up, TaskPaths(Flatten(g, roots)))
  }

  ghost function CompletePaths(g: Links, up: set<Path>): set<Path>
  {
    set p | p in up && ClosureUploaded(g, up, p)
  }

  /** Without detours the gate publishes exactly the uploaded paths whose closure was uploaded. */
  lemma {:induction false} GateExact(g: Links, up: set<Path>, order: seq<Path>)
    requires Closed(g) && NoDetours(g) && Elems(order) <= g.Keys
    ensures ExactOutside(g, up, Gate(g, up, order).memo, {})
    ensures Gate(g, up, order).published == KeepIn(order, CompletePaths(g, up))
    ensures Gate(g, up, order).excluded == KeepIn(order, up - CompletePaths(g, up))
  {
    if order != [] {
      var n := |order| - 1;
      assert order == order[..n] + [order[n]];
      assert Elems(order[..n]) <= Elems(order) && order[n] in Elems(order);
      GateExact(g, up, order[..n]);
      if order[n] in up {
        CompleteExact(g, up, order[n], Gate(g, up, order[..n]).memo, []);
      }
    }
  }

  /** On any graph the gate splits the uploaded paths it visits, and only excludes what is incomplete. */
  lemma {:induction false} GateSplits(g: Links, up: set<Path>, order: seq<Path>)
    requires Closed(g) && Elems(order) <= g.Keys && NoDup(order)
    ensures FalseIsSound(g, up, Gate(g, up, order).memo)
    ensures
      var r := Gate(g, up, order);
      && NoDup(r.published) && NoDup(r.excluded)
      && Elems(r.published) !! Elems(r.excluded)
      && Elems(r.published) + Elems(r.excluded) == Elems(order) * up
      && forall p :: p in r.excluded ==> !ClosureUploaded(g, up, p)
  {
    if order != [] {
      var n := |order| - 1;
      var p := order[n];
      assert order == order[..n] + [p];
      assert Elems(order) == Elems(order[..n]) + {p};
      GateSplits(g, up, order[..n]);
      var before := Gate(g, up, order[..n]);
      assert p !in Elems(order[..n]);
      if p in up {
        CompleteFalseIsSound(g, up, p, before.memo);
        assert Elems(before.published + [p]) == Elems(before.published) + {p};
        assert Elems(before.excluded + [p]) == Elems(before.excluded) + {p};
      }
    }
  }

  /** What completeReceipts is for: published is what was uploaded with all it reaches. */
  ghost predicate GateIsExact(g: Links, up: set<Path>, roots: seq<Path>)
    requires Closed(g) && Elems(roots) <= g.Keys
  {
    var r := CompleteReceipts(g, up, roots);
    && NoDup(r.published) && NoDup(r.excluded)
    && (forall p :: p in r.published <==> FromSome(g, roots, p) && ClosureUploaded(g, up, p))
    && (forall p :: p in r.excluded <==> FromSome(g, roots, p) && p in up && !ClosureUploaded(g, up, p))
  }

  /**
   completeReceipts on an acyclic result graph: an uploaded path is published if
   and only if everything it reaches was uploaded, and is excluded otherwise.
   */
  lemma CompleteReceiptsExact(g: Links, up: set<Path>, roots: seq<Path>)
    requires Closed(g) && Acyclic(g) && Elems(roots) <= g.Keys
    ensures GateIsExact(g, up, roots)
  {
    AcyclicHasNoDetours(g);
    GateIsExactWithoutDetours(g, up, roots);
  }

  lemma GateIsExactWithoutDetours(g: Links, up: set<Path>, roots: seq<Path>)
    requires Closed(g) && NoDetours(g) && Elems(roots) <= g.Keys
    ensures GateIsExact(g, up, roots)
  {
    var order := TaskPaths(Flatten(g, roots));
    TaskSetIsPaths(Flatten(g, roots));
    FlattenListsReachable(g, roots);
    GateExact(g, up, order);
    GateSplits(g, up, order);
    forall p | ClosureUploaded(g, up, p)
      ensures p in up
    {
      ReachesSelf(g, p);
    }
  }

  /**
   completeReceipts on any result graph: the uploaded paths it reaches are split
   between published and excluded, and an excluded path does reach a failed one.
   */
  lemma CompleteReceiptsSplit(g: Links, up: set<Path>, roots: seq<Path>)
    requires Closed(g) && Elems(roots) <= g.Keys
    ensures
      var r := CompleteReceipts(g, up, roots);
      && NoDup(r.published) && NoDup(r.excluded) && Elems(r.published) !! Elems(r.excluded)
      && (forall p :: p in r.published || p in r.excluded <==> FromSome(g, roots, p) && p in up)
      && (forall p :: p in r.excluded ==> exists q :: Reaches(g, p, q) && q !in up)
  {
    var order := TaskPaths(Flatten(g, roots));
    TaskSetIsPaths(Flatten(g, roots));
    FlattenListsReachable(g, roots);
    GateSplits(g, up, order);
    var r := CompleteReceipts(g, up, roots);
    forall p
      ensures p in r.published || p in r.excluded <==> FromSome(g, roots, p) && p in up
    {
      assert p in Elems(r.published) + Elems(r.excluded) <==> p in Elems(order) * up;
    }
  }

  /** A waits for B and C, B waits for A. */
  function Cycle(): Links
  {
    map["A" := ["B", "C"], "B" := ["A"], "C" := []]
  }

  function CycleTasks(k: nat): seq<Task>
  {
    if k == 1 then [Task("A", true)]
    else if k == 2 then [Task("A", true), Task("B", false)]
    else [Task("A", true), Task("B", false), Task("C", false)]
  }

  lemma CycleTaskSets()
    ensures TaskSet([]) == {} && TaskSet(CycleTasks(1)) == {"A"}
    ensures TaskSet(CycleTasks(2)) == {"A", "B"} && TaskSet(CycleTasks(3)) == {"A", "B", "C"}
  {
    var ta := [Task("A", true)];
    TaskSetAppend([], ta[0]);
    assert [] + ta == ta;
    TaskSetAppend(ta, Task("B", false));
    assert ta + [Task("B", false)] == CycleTasks(2);
    TaskSetAppend(CycleTasks(2), Task("C", false));
    assert CycleTasks(2) + [Task("C", false)] == CycleTasks(3);
  }

  /** Collecting B below A finds A seen. */
  lemma CycleFromB()
    ensures Collect(Cycle(), "B", false, CycleTasks(1)) == CycleTasks(2)
  {
    CycleTaskSets();
    hide TaskSet;
    var g := Cycle();
    assert CycleTasks(1) + [Task("B", false)] == CycleTasks(2);
    assert Collect(g, "A", false, CycleTasks(2)) == CycleTasks(2);
    assert ["A"][1..] == [];
    assert CollectAll(g, ["A"], false, CycleTasks(2)) == CycleTasks(2);
  }

  lemma CycleFromC()
    ensures Collect(Cycle(), "C", false, CycleTasks(2)) == CycleTasks(3)
  {
    CycleTaskSets();
    hide TaskSet;
    assert CycleTasks(2) + [Task("C", false)] == CycleTasks(3);
    assert CollectAll(Cycle(), [], false, CycleTasks(3)) == CycleTasks(3);
  }

  lemma CycleFromLinks()
    ensures Closed(Cycle()) && Elems(["B", "C"]) <= Cycle().Keys && TaskSet(CycleTasks(1)) <= Cycle().Keys
    ensures CollectAll(Cycle(), ["B", "C"], false, CycleTasks(1)) == CycleTasks(3)
  {
    var g := Cycle();
    CycleTaskSets();
    CycleFromB();
    CycleFromC();
    assert ["B", "C"][1..] == ["C"] && ["C"][1..] == [];
    hide TaskSet, CycleTasks, Collect;
    CollectNext(g, ["C"], false, CycleTasks(2), CycleTasks(3));
    CollectNext(g, ["B", "C"], false, CycleTasks(1), CycleTasks(2));
  }

  lemma CycleIsFlattened()
    ensures TaskPaths(Flatten(Cycle(), ["A"])) == ["A", "B", "C"]
  {
    var g := Cycle();
    CycleTaskSets();
    CycleFromLinks();
    assert [] + [Task("A", true)] == CycleTasks(1);
    assert ["A"][1..] == [];
    hide TaskSet, CycleTasks, CollectAll;
    assert Collect(g, "A", true, []) == CycleTasks(3);
    CollectNext(g, ["A"], true, [], CycleTasks(3));
    assert CollectAll(g, [], true, CycleTasks(3)) == CycleTasks(3);
    CycleTaskPaths();
  }

  lemma CycleTaskPaths()
    ensures TaskPaths(CycleTasks(3)) == ["A", "B", "C"]
  {
  }

  /** Deciding A decides B on the way, while A is still in progress. */
  lemma CycleIsDecided()
    ensures Complete(Cycle(), {"A", "B"}, "A", map[]) == Checked(false, map["A" := false, "B" := true, "C" := false])
  {
    var g, up := Cycle(), {"A", "B"};
    var m1: Memo := map["A" := true];
    var m2 := m1["B" := true];
    assert ["A"][1..] == [] && ["B", "C"][1..] == ["C"] && ["C"][1..] == [];
    assert Complete(g, up, "A", m2) == Checked(true, m2);
    assert CompleteAll(g, up, [], m2) == Checked(true, m2);
    assert CompleteAll(g, up, ["A"], m2) == Checked(true, m2);
    assert m2["B" := true] == m2;
    assert Complete(g, up, "B", m1) == Checked(true, m2);
    var m3 := m2["C" := true];
    var m4 := m3["C" := false];
    assert Complete(g, up, "C", m2) == Checked(false, m4);
    assert CompleteAll(g, up, [], m4) == Checked(true, m4);
    assert CompleteAll(g, up, ["C"], m2) == Checked(false, m4);
    assert CompleteAll(g, up, ["B", "C"], m1) == Checked(false, m4);
    assert m4["A" := false] == map["A" := false, "B" := true, "C" := false];
  }

  /**
   The other half fails on cycles. A waits for B and C, B waits for A, and only
   C failed: B is decided while A is still in progress, and is published although
   it reaches C.
   */
  lemma CycleIsOverApproximated()
    ensures Closed(Cycle())
    ensures CompleteReceipts(Cycle(), {"A", "B"}, ["A"]).published == ["B"]
    ensures Reaches(Cycle(), "B", "C")
  {
    var g, up := Cycle(), {"A", "B"};
    CycleIsFlattened();
    CycleIsDecided();
    var m: Memo := map["A" := false, "B" := true, "C" := false];
    ReachInEdge(g, "B", "A");
    ReachInEdge(g, "A", "C");
    ReachesTransitive(g, "B", "A", "C");
    var order := ["A", "B", "C"];
    assert order[..2] == ["A", "B"] && ["A", "B"][..1] == ["A"] && ["A"][..0] == [];
    hide Reaches, Flatten, TaskPaths, CompleteAll;
    assert Gate(g, up, []) == Gated(map[], [], []);
    assert Gate(g, up, ["A"]) == Gated(m, [], ["A"]);
    assert Gate(g, up, ["A", "B"]) == Gated(m, ["B"], ["A"]);
    assert Gate(g, up, order).published == ["B"];
  }
}
