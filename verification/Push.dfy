/**
 The code of the push package over result objects: the two traversals and the
 memoised check, each proved equal to its function in Publication, then the
 upload of a task set and the loop over chunks.
 */
module Push {
  import opened Sequences
  import opened Reachability
  import opened ReferenceWalk
  import opened Publication
  import opened Preparation
  import Sorting

  /** The objects represent the links of a result graph, one or more objects a path. */
  ghost predicate Represents(objs: set<Result>, g: Links)
    reads objs
  {
    && Closed(g)
    && forall r :: r in objs ==>
         && r.storePath in g
         && PathsOf(r.missingRefResults) == g[r.storePath]
         && Elems(r.missingRefResults) <= objs
  }

  lemma ShownGraphIsRepresented(objs: set<Result>, g: Graph)
    requires Shows(objs, g) && Closed(LinksOf(g))
    ensures Represents(objs, LinksOf(g))
  {
  }

  datatype PreparedTask = PreparedTask(r: Result, isRoot: bool)

  function Plain(tasks: seq<PreparedTask>): (ts: seq<Task>)
    ensures |ts| == |tasks|
    ensures forall i :: 0 <= i < |tasks| ==> ts[i] == Task(tasks[i].r.storePath, tasks[i].isRoot)
  {
    seq(|tasks|, i requires 0 <= i < |tasks| => Task(tasks[i].r.storePath, tasks[i].isRoot))
  }

  /** The state flattenTasks builds up: the paths seen and the tasks listed. */
  class Flattener {
    var seen: set<Path>
    var tasks: seq<PreparedTask>

    constructor ()
      ensures seen == {} && tasks == []
    {
      seen, tasks := {}, [];
    }

    /** Lists r unless it was seen, then the results linked under it. */
    method CollectResult(r: Result, isRoot: bool, ghost objs: set<Result>, ghost g: Links)
      requires Represents(objs, g) && r in objs
      requires seen == TaskSet(Plain(tasks)) <= g.Keys
      modifies this
      ensures seen == TaskSet(Plain(tasks)) <= g.Keys
      ensures Plain(tasks) == Collect(g, r.storePath, isRoot, old(Plain(tasks)))
      decreases g.Keys - seen
    {
      if r.storePath in seen {
        return;
      }
      ghost var before := Plain(tasks);
      CollectNew(g, r.storePath, isRoot, before);
      seen := seen + {r.storePath};
      tasks := tasks + [PreparedTask(r, isRoot)];
      assert Plain(tasks) == before + [Task(r.storePath, isRoot)];
      assert g.Keys - seen < old(g.Keys - seen) by { assert r.storePath in old(g.Keys - seen); }
      var rs := r.missingRefResults;
      ghost var paths := g[r.storePath];
      assert paths[0..] == paths && PathsOf(rs) == paths && Elems(rs) <= objs;
      hide Collect, CollectAll, TaskSet, Plain, Represents;
      for i := 0 to |rs|
        invariant old(seen) + {r.storePath} <= seen == TaskSet(Plain(tasks)) <= g.Keys
        invariant Elems(paths[i..]) <= g.Keys
        invariant CollectAll(g, paths[i..], false, Plain(tasks)) == Collect(g, r.storePath, isRoot, before)
      {
        assert rs[i] in Elems(rs);
        assert paths[i..][0] == rs[i].storePath && paths[i..][1..] == paths[i + 1..];
        ghost var between := Plain(tasks);
        CollectResult(rs[i], false, objs, g);
        CollectNext(g, paths[i..], false, between, Plain(tasks));
      }
      CollectNone(g, false, Plain(tasks));
    }
  }

  /** Flattens results and what is linked under them into a deduplicated task list. */
  method FlattenTasks(results: seq<Result>, ghost objs: set<Result>, ghost g: Links) returns (tasks: seq<PreparedTask>)
    requires Represents(objs, g) && Elems(results) <= objs
    ensures Elems(PathsOf(results)) <= g.Keys
    ensures Plain(tasks) == Flatten(g, PathsOf(results))
  {
    ghost var paths := PathsOf(results);
    assert forall r :: r in results ==> r in Elems(results);
    var f := new Flattener();
    assert Plain(f.tasks) == [] && TaskSet([]) == {};
    for i := 0 to |results|
      invariant f.seen == TaskSet(Plain(f.tasks)) <= g.Keys
      invariant CollectAll(g, paths[i..], true, Plain(f.tasks)) == Flatten(g, paths)
    {
      assert results[i] in objs;
      assert paths[i..][0] == results[i].storePath && paths[i..][1..] == paths[i + 1..];
      f.CollectResult(results[i], true, objs, g);
    }
    tasks := f.tasks;
  }

  // ---- completeReceipts -------------------------------------------------------

  datatype PushReceipt = PushReceipt(storePath: Path, isRoot: bool)

  function ReceiptPaths(rs: seq<PushReceipt>): (ps: seq<Path>)
    ensures |ps| == |rs| && forall i :: 0 <= i < |rs| ==> ps[i] == rs[i].storePath
  {
    seq(|rs|, i requires 0 <= i < |rs| => rs[i].storePath)
  }

  /** The memo, the seen set and the two lists that completeReceipts fills. */
  class ReceiptGate {
    const byPath: map<Path, PushReceipt>
    var memo: Memo
    var seen: set<Path>
    var receipts: seq<PushReceipt>
    var excluded: seq<Path>
    ghost var visited: seq<Task>

    constructor (byPath: map<Path, PushReceipt>)
      ensures this.byPath == byPath
      ensures memo == map[] && seen == {} && receipts == [] && excluded == [] && visited == []
    {
      this.byPath := byPath;
      memo, seen, receipts, excluded, visited := map[], {}, [], [], [];
    }

    /** The lists are what the gate gives after visiting the paths seen so far. */
    ghost predicate Valid(g: Links)
      reads this
    {
      && Closed(g)
      && (forall p :: p in byPath ==> byPath[p].storePath == p)
      && seen == TaskSet(visited) == Elems(TaskPaths(visited)) <= g.Keys
      && Gate(g, byPath.Keys, TaskPaths(visited)) == Gated(memo, ReceiptPaths(receipts), excluded)
      && (forall r :: r in receipts ==> r.storePath in byPath && r == byPath[r.storePath])
    }

    /** The memoised check of one result. */
    method CompleteResult(r: Result, ghost objs: set<Result>, ghost g: Links) returns (ok: bool)
      requires Represents(objs, g) && r in objs && memo.Keys <= g.Keys
      modifies this`memo
      ensures Checked(ok, memo) == Complete(g, byPath.Keys, r.storePath, old(memo))
      decreases g.Keys - memo.Keys
    {
      if r.storePath in memo {
        return memo[r.storePath];
      }
      var p := r.storePath;
      memo := memo[p := true];
      assert g.Keys - memo.Keys < old(g.Keys - memo.Keys) by { assert p in old(g.Keys - memo.Keys); }
      ok := p in byPath;
      var rs := r.missingRefResults;
      ghost var paths := g[p];
      ghost var all := CompleteAll(g, byPath.Keys, paths, memo);
      ghost var below := true;
      for i := 0 to |rs|
        invariant old(memo.Keys) + {p} <= memo.Keys <= g.Keys
        invariant Elems(paths[i..]) <= g.Keys
        invariant var rest := CompleteAll(g, byPath.Keys, paths[i..], memo);
          rest.memo == all.memo && (below && rest.ok <==> all.ok)
        invariant ok <==> p in byPath && below
      {
        assert rs[i] in Elems(rs);
        assert paths[i..][0] == rs[i].storePath && paths[i..][1..] == paths[i + 1..];
        var done := CompleteResult(rs[i], objs, g);
        below := below && done;
        if !done {
          ok := false;
        }
      }
      memo := memo[p := ok];
    }

    /** Visits r unless it was seen: decides its receipt, then visits what is linked under it. */
    method WalkResult(r: Result, ghost isRoot: bool, ghost objs: set<Result>, ghost g: Links)
      requires Represents(objs, g) && r in objs && Valid(g)
      modifies this
      ensures Valid(g)
      ensures visited == Collect(g, r.storePath, isRoot, old(visited))
      decreases g.Keys - seen
    {
      if r.storePath in seen {
        return;
      }
      var p := r.storePath;
      Visit(r, isRoot, objs, g);
      assert g.Keys - seen < old(g.Keys - seen) by { assert p in old(g.Keys - seen); }
      var rs := r.missingRefResults;
      ghost var paths := g[p];
      for i := 0 to |rs|
        invariant Valid(g)
        invariant old(seen) + {p} <= seen
        invariant Elems(paths[i..]) <= g.Keys
        invariant CollectAll(g, paths[i..], false, visited) == Collect(g, p, isRoot, old(visited))
      {
        assert rs[i] in Elems(rs);
        assert paths[i..][0] == rs[i].storePath && paths[i..][1..] == paths[i + 1..];
        WalkResult(rs[i], false, objs, g);
      }
    }

    /** Marks a path seen and decides whether its receipt is published. */
    method Visit(r: Result, ghost isRoot: bool, ghost objs: set<Result>, ghost g: Links)
      requires Represents(objs, g) && r in objs && Valid(g) && r.storePath !in seen
      modifies this
      ensures Valid(g)
      ensures visited == old(visited) + [Task(r.storePath, isRoot)] && seen == old(seen) + {r.storePath}
    {
      var p := r.storePath;
      assert p in g && Represents(objs, g);
      hide Represents;
      ghost var task := Task(p, isRoot);
      ghost var order := TaskPaths(visited);
      TaskSetAppend(visited, task);
      TaskSetIsPaths(visited + [task]);
      assert TaskPaths(visited + [task]) == order + [p];
      assert (order + [p])[..|order|] == order;
      seen := seen + {p};
      visited := visited + [task];
      if p in byPath {
        var ok := CompleteResult(r, objs, g);
        if ok {
          assert ReceiptPaths(receipts + [byPath[p]]) == ReceiptPaths(receipts) + [p];
          receipts := receipts + [byPath[p]];
        } else {
          excluded := excluded + [p];
        }
      }
    }
  }

  /** Keeps the receipts that are safe to index and lists, sorted, the paths left out. */
  method CompleteReceiptsOf(results: seq<Result>, byPath: map<Path, PushReceipt>, ghost objs: set<Result>,
                            ghost g: Links)
    returns (receipts: seq<PushReceipt>, excluded: seq<Path>)
    requires Represents(objs, g) && Elems(results) <= objs
    requires forall p :: p in byPath ==> byPath[p].storePath == p
    ensures Elems(PathsOf(results)) <= g.Keys
    ensures ReceiptPaths(receipts) == CompleteReceipts(g, byPath.Keys, PathsOf(results)).published
    ensures forall r :: r in receipts ==> r.storePath in byPath && r == byPath[r.storePath]
    ensures excluded == Sorting.Sort(CompleteReceipts(g, byPath.Keys, PathsOf(results)).excluded)
    ensures Sorting.InByteOrder(excluded, CompleteReceipts(g, byPath.Keys, PathsOf(results)).excluded)
  {
    ghost var paths := PathsOf(results);
    assert forall r :: r in results ==> r in Elems(results);
    var gate := new ReceiptGate(byPath);
    assert TaskPaths([]) == [] && TaskSet([]) == {} && ReceiptPaths([]) == [];
    for i := 0 to |results|
      invariant gate.byPath == byPath && gate.Valid(g)
      invariant CollectAll(g, paths[i..], true, gate.visited) == Flatten(g, paths)
    {
      assert results[i] in objs;
      assert paths[i..][0] == results[i].storePath && paths[i..][1..] == paths[i + 1..];
      gate.WalkResult(results[i], true, objs, g);
    }
    receipts := gate.receipts;
    excluded := Sorting.Sort(gate.excluded);
    Sorting.SortIs(gate.excluded);
  }
}
