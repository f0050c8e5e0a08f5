/**
 One batch query of one upstream: the worker pool whose jobs are calls of the
 existence cache, which share requests. Put together, the two protocols answer
 a batch exactly or not at all, whatever the schedule.
 */
module BatchQuery {
  import opened Sequences
  import Calls = ExistenceCache
  import Workers = WorkerPool

  type Hash = Calls.Hash

  /** Call i of the cache is the work of job i of the pool. */
  datatype Batch = Batch(pool: Workers.Pool, cache: Calls.State)

  datatype Turn = Pool(actor: Workers.Actor) | Call(job: nat, choice: Calls.Choice)

  predicate HasReturned(cache: Calls.State, i: nat)
  {
    i < |cache.threads| && cache.threads[i].pc.Done?
  }

  /** The calls that came back with an error. */
  function Failures(cache: Calls.State): nat -> bool
  {
    (i: nat) => i < |cache.threads| && cache.threads[i].pc == Calls.Done(Calls.Err)
  }

  predicate InProgress(workers: seq<Workers.WorkerPc>, i: nat)
  {
    exists w :: 0 <= w < |workers| && workers[w] == Workers.Working(i)
  }

  /** A worker sends a result only once its call has returned. */
  predicate MayMove(s: Batch, a: Workers.Actor)
  {
    a.Worker? && a.w < |s.pool.workers| && s.pool.workers[a.w].Working? ==>
      HasReturned(s.cache, s.pool.workers[a.w].job)
  }

  /** A call runs only while a worker is busy with it. */
  function Step(s: Batch, turn: Turn): (r: Option<Batch>)
  {
    match turn
    case Pool(a) =>
      var next := Workers.Step(|s.cache.threads|, Failures(s.cache), s.pool, a);
      if MayMove(s, a) && next.Some? then Some(s.(pool := next.value)) else None
    case Call(i, choice) =>
      if i < |s.cache.threads| && InProgress(s.pool.workers, i) && Calls.Step(s.cache, i, choice).Some?
      then Some(s.(cache := Calls.Step(s.cache, i, choice).value))
      else None
  }

  /** A batch query of a new cache. */
  function Init(hashes: seq<Hash>, workers: nat): Batch
    requires |hashes| > 0 ==> workers > 0
  {
    Batch(Workers.Init(|hashes|, workers), Calls.Init(hashes))
  }

  ghost function Run(s: Batch, schedule: seq<Turn>): Batch
    decreases |schedule|
  {
    if schedule == [] then s
    else
      var next := Step(s, schedule[0]);
      Run(if next.Some? then next.value else s, schedule[1..])
  }

  // ---- the invariant --------------------------------------------------------------

  ghost predicate JobsInRange(n: nat, pool: Workers.Pool)
  {
    && (forall i :: i in pool.jobs ==> i < n)
    && (forall w :: 0 <= w < |pool.workers| && pool.workers[w].Working? ==> pool.workers[w].job < n)
  }

  /** Results are those of calls that returned. */
  ghost predicate ResultsReturned(s: Batch)
  {
    forall i :: i in s.pool.results || i in s.pool.taken ==> HasReturned(s.cache, i)
  }

  /** A call under way is the work of some worker. */
  ghost predicate UnderWayInProgress(s: Batch)
  {
    forall i: nat :: i < |s.cache.threads| && !s.cache.threads[i].pc.Start? && !s.cache.threads[i].pc.Done? ==>
      InProgress(s.pool.workers, i)
  }

  ghost predicate CallsFor(hashes: seq<Hash>, cache: Calls.State)
  {
    |cache.threads| == |hashes| && forall i :: 0 <= i < |hashes| ==> cache.threads[i].hash == hashes[i]
  }

  ghost predicate Inv(hashes: seq<Hash>, s: Batch)
  {
    && CallsFor(hashes, s.cache)
    && Calls.Inv(s.cache) && Calls.FailuresCarried(s.cache)
    && Workers.Inv(|hashes|, Failures(s.cache), s.pool)
    && JobsInRange(|hashes|, s.pool) && ResultsReturned(s) && UnderWayInProgress(s)
  }

  lemma InitInv(hashes: seq<Hash>, workers: nat)
    requires |hashes| > 0 ==> workers > 0
    ensures Inv(hashes, Init(hashes, workers))
  {
    Calls.InitInv(hashes);
    Workers.InitInv(|hashes|, Failures(Calls.Init(hashes)), workers);
    hide Calls.Inv, Workers.Inv;
  }

  /** The pool's invariant asks only whether the results taken are failures. */
  lemma SameFailures(n: nat, fails: nat -> bool, fails': nat -> bool, pool: Workers.Pool)
    requires Workers.Inv(n, fails, pool) && forall i :: i in pool.taken ==> fails(i) == fails'(i)
    ensures Workers.Inv(n, fails', pool)
  {
    hide Workers.Conserved;
  }

  /** Only the call that takes a step moves, and it had not returned. */
  lemma CallMoves(cache: Calls.State, i: nat, choice: Calls.Choice)
    requires i < |cache.threads| && Calls.Step(cache, i, choice).Some?
    ensures var cache' := Calls.Step(cache, i, choice).value;
      && |cache'.threads| == |cache.threads| && !cache.threads[i].pc.Done?
      && cache'.threads[i].hash == cache.threads[i].hash
      && forall u :: 0 <= u < |cache.threads| && u != i ==> cache'.threads[u] == cache.threads[u]
  {
  }

  lemma CallKeepsInv(hashes: seq<Hash>, s: Batch, i: nat, choice: Calls.Choice)
    requires Inv(hashes, s) && Step(s, Call(i, choice)).Some?
    ensures Inv(hashes, Step(s, Call(i, choice)).value)
  {
    var s' := Step(s, Call(i, choice)).value;
    Calls.StepInv(s.cache, i, choice);
    Calls.StepFailures(s.cache, i, choice);
    CallMoves(s.cache, i, choice);
    hide Calls.Inv, Calls.FailuresCarried, Calls.Step, Workers.Inv;
    SameFailures(|hashes|, Failures(s.cache), Failures(s'.cache), s.pool);
  }

  lemma PoolKeepsJobs(n: nat, fails: nat -> bool, pool: Workers.Pool, a: Workers.Actor)
    requires Workers.Inv(n, fails, pool) && JobsInRange(n, pool) && Workers.Step(n, fails, pool, a).Some?
    ensures JobsInRange(n, Workers.Step(n, fails, pool, a).value)
  {
    hide Workers.Conserved;
    match a
    case Main => assert forall i :: i in pool.jobs + [pool.sent] ==> i in pool.jobs || i == pool.sent;
    case Closer =>
    case Worker(w) =>
      var pool' := Workers.Step(n, fails, pool, a).value;
      assert forall i :: i in pool'.jobs ==> i in pool.jobs;
      assert pool.jobs != [] ==> pool.jobs[0] in pool.jobs;
      assert pool'.workers[w].Working? ==> pool'.workers[w].job < n;
      assert forall v :: 0 <= v < |pool.workers| && v != w ==> pool'.workers[v] == pool.workers[v];
  }

  /** What the pool passes on was passed on before, or is the result a worker now sends. */
  lemma PoolPassesOn(n: nat, fails: nat -> bool, pool: Workers.Pool, a: Workers.Actor, i: nat)
    requires Workers.Step(n, fails, pool, a).Some?
    requires
      var pool' := Workers.Step(n, fails, pool, a).value;
      i in pool'.results || i in pool'.taken
    ensures i in pool.results || i in pool.taken
      || (a.Worker? && a.w < |pool.workers| && pool.workers[a.w] == Workers.Working(i))
  {
  }

  lemma PoolKeepsWork(n: nat, fails: nat -> bool, pool: Workers.Pool, a: Workers.Actor, i: nat)
    requires Workers.Step(n, fails, pool, a).Some? && InProgress(pool.workers, i)
    ensures InProgress(Workers.Step(n, fails, pool, a).value.workers, i)
      || (a.Worker? && a.w < |pool.workers| && pool.workers[a.w] == Workers.Working(i))
  {
    var pool' := Workers.Step(n, fails, pool, a).value;
    var w :| 0 <= w < |pool.workers| && pool.workers[w] == Workers.Working(i);
    assert pool'.workers[w] == pool.workers[w] || (a.Worker? && a.w == w);
  }

  lemma PoolKeepsResults(hashes: seq<Hash>, s: Batch, a: Workers.Actor)
    requires Inv(hashes, s) && Step(s, Pool(a)).Some?
    ensures ResultsReturned(Step(s, Pool(a)).value)
  {
    hide Calls.Inv, Workers.Inv, Workers.Step, UnderWayInProgress, JobsInRange;
    var s' := Step(s, Pool(a)).value;
    forall i | i in s'.pool.results || i in s'.pool.taken
      ensures HasReturned(s'.cache, i)
    {
      PoolPassesOn(|hashes|, Failures(s.cache), s.pool, a, i);
    }
  }

  lemma PoolKeepsUnderWay(hashes: seq<Hash>, s: Batch, a: Workers.Actor)
    requires Inv(hashes, s) && Step(s, Pool(a)).Some?
    ensures UnderWayInProgress(Step(s, Pool(a)).value)
  {
    hide Calls.Inv, Workers.Inv, Workers.Step, ResultsReturned, JobsInRange, InProgress;
    var s' := Step(s, Pool(a)).value;
    forall i: nat | i < |s.cache.threads| && !s.cache.threads[i].pc.Start? && !s.cache.threads[i].pc.Done?
      ensures InProgress(s'.pool.workers, i)
    {
      PoolKeepsWork(|hashes|, Failures(s.cache), s.pool, a, i);
    }
  }

  lemma PoolKeepsInv(hashes: seq<Hash>, s: Batch, a: Workers.Actor)
    requires Inv(hashes, s) && Step(s, Pool(a)).Some?
    ensures Inv(hashes, Step(s, Pool(a)).value)
  {
    PoolKeepsResults(hashes, s, a);
    PoolKeepsUnderWay(hashes, s, a);
    hide Calls.Inv, Calls.FailuresCarried, Workers.Inv, Workers.Step, ResultsReturned, UnderWayInProgress, JobsInRange;
    Workers.StepKeepsInv(|hashes|, Failures(s.cache), s.pool, a);
    PoolKeepsJobs(|hashes|, Failures(s.cache), s.pool, a);
  }

  lemma {:induction false} RunKeepsInv(hashes: seq<Hash>, s: Batch, schedule: seq<Turn>)
    requires Inv(hashes, s)
    ensures Inv(hashes, Run(s, schedule))
    decreases |schedule|
  {
    hide Inv, Step;
    if schedule != [] {
      var next := Step(s, schedule[0]);
      if next.Some? {
        match schedule[0]
        case Pool(a) => PoolKeepsInv(hashes, s, a);
        case Call(i, choice) => CallKeepsInv(hashes, s, i, choice);
      }
      RunKeepsInv(hashes, if next.Some? then next.value else s, schedule[1..]);
    }
  }

  // ---- what a batch answers -----------------------------------------------------------

  /** What call i answered. */
  function AnswerOf(cache: Calls.State): nat -> bool
  {
    (i: nat) => HasReturned(cache, i) && cache.threads[i].pc.r == Calls.Ok(true)
  }

  /** The map a successful batch returns, filled in the order the results arrived. */
  function Answers(hashes: seq<Hash>, s: Batch): map<Hash, bool>
  {
    Workers.Tabulate(hashes, s.pool.taken, AnswerOf(s.cache))
  }

  /** A batch that returns without an error had no call that failed, so every call has its answer. */
  lemma AllCallsSucceeded(hashes: seq<Hash>, s: Batch)
    requires Inv(hashes, s) && s.pool.main == Workers.Returned(true)
    ensures Calls.AllSucceeded(s.cache) && forall h :: Calls.Replied(h, Calls.Failed) !in s.cache.log
  {
    Workers.SuccessTakesAll(|hashes|, Failures(s.cache), s.pool);
    hide Workers.Inv, Calls.Inv, UnderWayInProgress, JobsInRange;
    forall t: nat | t < |s.cache.threads|
      ensures s.cache.threads[t].pc.Done? && s.cache.threads[t].pc.r.Ok?
    {
      assert HasReturned(s.cache, t) && !Failures(s.cache)(t);
    }
    forall h
      ensures Calls.Replied(h, Calls.Failed) !in s.cache.log
    {
      assert !Calls.FailureCarried(s.cache, h);
    }
  }

  lemma CallIsAnswered(hashes: seq<Hash>, s: Batch, i: nat)
    requires Inv(hashes, s) && Calls.AllSucceeded(s.cache) && i < |hashes|
    ensures Calls.Replied(hashes[i], if AnswerOf(s.cache)(i) then Calls.Found else Calls.NotFound) in s.cache.log
  {
    Calls.SucceededIsAnswered(s.cache, i);
    hide Calls.Inv, Calls.FailuresCarried, Workers.Inv, JobsInRange, ResultsReturned, UnderWayInProgress;
  }

  lemma InvAnswers(hashes: seq<Hash>, s: Batch)
    requires Inv(hashes, s) && s.pool.main == Workers.Returned(true)
    ensures Answers(hashes, s).Keys == Elems(hashes)
    ensures forall h :: h in hashes ==>
      Calls.Replied(h, if Answers(hashes, s)[h] then Calls.Found else Calls.NotFound) in s.cache.log
  {
    AllCallsSucceeded(hashes, s);
    Workers.SuccessTabulatesAll(hashes, Failures(s.cache), s.pool, AnswerOf(s.cache));
    hide Inv, Elems, AnswerOf, Calls.AllSucceeded;
    forall h | h in hashes
      ensures Calls.Replied(h, if Answers(hashes, s)[h] then Calls.Found else Calls.NotFound) in s.cache.log
    {
      var i: nat :| i < |hashes| && hashes[i] == h && Answers(hashes, s)[h] == AnswerOf(s.cache)(i);
      CallIsAnswered(hashes, s, i);
    }
  }

  /**
   Whatever the schedule, the number of workers and the server, and however often a
   hash is asked for: a batch that returns without an error answers for exactly the
   hashes asked, each with the 200 or 404 received for it, and no request failed.
   */
  lemma BatchIsAnswered(hashes: seq<Hash>, workers: nat, schedule: seq<Turn>)
    requires |hashes| > 0 ==> workers > 0
    requires Run(Init(hashes, workers), schedule).pool.main == Workers.Returned(true)
    ensures var s := Run(Init(hashes, workers), schedule);
      && Answers(hashes, s).Keys == Elems(hashes)
      && (forall h :: h in hashes ==>
            Calls.Replied(h, if Answers(hashes, s)[h] then Calls.Found else Calls.NotFound) in s.cache.log)
      && (forall h :: Calls.Replied(h, Calls.Failed) !in s.cache.log)
  {
    hide *;
    var s := Run(Init(hashes, workers), schedule);
    InitInv(hashes, workers);
    RunKeepsInv(hashes, Init(hashes, workers), schedule);
    AllCallsSucceeded(hashes, s);
    InvAnswers(hashes, s);
  }

  /** The server answers 200 for the hashes it holds and 404 for the others, if it answers. */
  ghost predicate Honest(log: seq<Calls.Event>, holds: Hash -> bool)
  {
    forall h, a :: Calls.Replied(h, a) in log && !a.Failed? ==> (a.Found? <==> holds(h))
  }

  /** What a batch that fails nowhere answers about a server that holds these hashes. */
  function ExactReply(holds: Hash -> bool, hashes: seq<Hash>): map<Hash, bool>
  {
    map h | h in hashes :: holds(h)
  }

  /** A batch that returns without an error says exactly which of its hashes the server holds. */
  lemma BatchIsExact(hashes: seq<Hash>, workers: nat, schedule: seq<Turn>, holds: Hash -> bool)
    requires |hashes| > 0 ==> workers > 0
    requires Run(Init(hashes, workers), schedule).pool.main == Workers.Returned(true)
    requires Honest(Run(Init(hashes, workers), schedule).cache.log, holds)
    ensures Answers(hashes, Run(Init(hashes, workers), schedule)) == ExactReply(holds, hashes)
  {
    BatchIsAnswered(hashes, workers, schedule);
    hide Run, Init, Answers;
  }

  // ---- when a batch fails ---------------------------------------------------------------

  /** Every error comes from a request that failed, unless a call was cancelled. */
  ghost predicate ErrorsReplied(cache: Calls.State)
  {
    forall i :: 0 <= i < |cache.threads| && cache.threads[i].pc == Calls.Done(Calls.Err) ==>
      Calls.Replied(cache.threads[i].hash, Calls.Failed) in cache.log
  }

  lemma CallKeepsErrors(cache: Calls.State, i: nat, choice: Calls.Choice)
    requires Calls.Inv(cache) && ErrorsReplied(cache) && !choice.cancelled
    requires i < |cache.threads| && Calls.Step(cache, i, choice).Some?
    ensures ErrorsReplied(Calls.Step(cache, i, choice).value)
  {
    assert Calls.ThreadInv(cache, i);
    hide Calls.Inv;
    var cache' := Calls.Step(cache, i, choice).value;
    assert forall e :: e in cache.log ==> e in cache'.log;
  }

  predicate Uncancelled(schedule: seq<Turn>)
  {
    forall k :: 0 <= k < |schedule| && schedule[k].Call? ==> !schedule[k].choice.cancelled
  }

  lemma {:induction false} RunKeepsErrors(hashes: seq<Hash>, s: Batch, schedule: seq<Turn>)
    requires Inv(hashes, s) && ErrorsReplied(s.cache) && Uncancelled(schedule)
    ensures ErrorsReplied(Run(s, schedule).cache)
    decreases |schedule|
  {
    if schedule != [] {
      var next := Step(s, schedule[0]);
      assert Uncancelled(schedule[1..]) && (schedule[0].Call? ==> !schedule[0].choice.cancelled);
      if next.Some? {
        match schedule[0]
        case Pool(a) => PoolKeepsInv(hashes, s, a);
        case Call(i, choice) =>
          CallKeepsInv(hashes, s, i, choice);
          CallKeepsErrors(s.cache, i, choice);
      }
      hide Inv, Step, ErrorsReplied, Uncancelled;
      RunKeepsErrors(hashes, if next.Some? then next.value else s, schedule[1..]);
    }
  }

  /** Unless a call is cancelled, a batch that returns fails exactly if some request got no 200 or 404. */
  lemma BatchFailsIff(hashes: seq<Hash>, workers: nat, schedule: seq<Turn>)
    requires (|hashes| > 0 ==> workers > 0) && Uncancelled(schedule)
    requires Run(Init(hashes, workers), schedule).pool.main.Returned?
    ensures var s := Run(Init(hashes, workers), schedule);
      s.pool.main == Workers.Returned(false) <==> exists h :: Calls.Replied(h, Calls.Failed) in s.cache.log
  {
    var s := Run(Init(hashes, workers), schedule);
    InitInv(hashes, workers);
    RunKeepsInv(hashes, Init(hashes, workers), schedule);
    RunKeepsErrors(hashes, Init(hashes, workers), schedule);
    hide Run, Init;
    if s.pool.main == Workers.Returned(true) {
      AllCallsSucceeded(hashes, s);
    } else {
      Workers.FailureIsReal(|hashes|, Failures(s.cache), s.pool);
    }
  }

  // ---- ending ------------------------------------------------------------------------

  lemma CallSteps(s: Batch, i: nat, choice: Calls.Choice)
    requires i < |s.cache.threads| && InProgress(s.pool.workers, i) && Calls.Step(s.cache, i, choice).Some?
    ensures Step(s, Call(i, choice)).Some?
  {
    hide InProgress, Calls.Step;
  }

  lemma RunningInProgress(hashes: seq<Hash>, s: Batch, i: nat, u: nat)
    requires Inv(hashes, s) && InProgress(s.pool.workers, i) && u < |s.cache.threads|
    requires (u == i || !s.cache.threads[u].pc.Start?) && !s.cache.threads[u].pc.Done?
    ensures InProgress(s.pool.workers, u)
  {
    hide Calls.Inv, Calls.FailuresCarried, Workers.Inv, JobsInRange, ResultsReturned, InProgress;
  }

  /** A worker that cannot pass its result on yet waits for a call that can go on, or for one of another worker. */
  lemma CallCanMove(hashes: seq<Hash>, s: Batch, i: nat)
    requires Inv(hashes, s) && i < |hashes| && InProgress(s.pool.workers, i) && !s.cache.threads[i].pc.Done?
    ensures exists u, a :: Step(s, Call(u, Calls.Choice(a, false))).Some?
  {
    Calls.SomeoneCanRun(s.cache, i);
    var u: nat :| Calls.CanRun(s.cache, u) && u < |s.cache.threads| && (u == i || !s.cache.threads[u].pc.Start?);
    var choice := Calls.Choice(Calls.Found, false);
    assert Calls.Step(s.cache, u, choice).Some?;
    hide *;
    CallMoves(s.cache, u, choice);
    RunningInProgress(hashes, s, i, u);
    CallSteps(s, u, choice);
  }

  /** Until the batch has returned and its workers have left, a goroutine can go on without being cancelled. */
  lemma SomeoneCanStep(hashes: seq<Hash>, s: Batch)
    requires Inv(hashes, s) && !(s.pool.main.Returned? && Workers.AllLeft(s.pool.workers))
    ensures exists turn :: Step(s, turn).Some? && (turn.Call? ==> !turn.choice.cancelled)
  {
    Workers.SomeoneCanStep(|hashes|, Failures(s.cache), s.pool);
    var a :| Workers.Step(|hashes|, Failures(s.cache), s.pool, a).Some?;
    if MayMove(s, a) {
      assert Step(s, Pool(a)).Some?;
    } else {
      CallCanMove(hashes, s, s.pool.workers[a.w].job);
      var u, answer :| Step(s, Call(u, Calls.Choice(answer, false))).Some?;
    }
  }

  function WorkLeft(s: Batch): int
  {
    Calls.Work(s.cache.threads) + Workers.Measure(|s.cache.threads|, s.pool)
  }

  /** Every step uses up bounded work, so every batch comes to its end. */
  lemma StepsRunOut(hashes: seq<Hash>, s: Batch, turn: Turn)
    requires Inv(hashes, s) && Step(s, turn).Some?
    ensures 0 <= WorkLeft(Step(s, turn).value) < WorkLeft(s)
  {
    match turn
    case Pool(a) => Workers.StepsRunOut(|hashes|, Failures(s.cache), s.pool, a);
    case Call(i, choice) =>
      Calls.StepsRunOut(s.cache, i, choice);
      CallMoves(s.cache, i, choice);
      assert Workers.Measure(|hashes|, s.pool) >= 0;
  }
}
