/**
 The worker pools over buffered channels: one goroutine sends every job and then
 reads the results, some workers pass jobs on, and one closes the result channel
 when all workers have left. Both channels have room for one entry per job.
 */
module WorkerPool {
  import opened Sequences

  datatype WorkerPc = Idle | Working(job: nat) | Left
  datatype MainPc = Sending | Reading | Returned(ok: bool)

  datatype Pool = Pool(
    sent: nat,
    jobs: seq<nat>,
    jobsClosed: bool,
    workers: seq<WorkerPc>,
    results: seq<nat>,
    resultsClosed: bool,
    taken: seq<nat>,          // results received, in the order received
    main: MainPc,
    panicked: bool)

  datatype Actor = Main | Closer | Worker(w: nat)

  predicate AllLeft(workers: seq<WorkerPc>)
  {
    forall w :: 0 <= w < |workers| ==> workers[w].Left?
  }

  /** The main goroutine; a failed result makes it return without reading the rest. */
  function MainStep(n: nat, fails: nat -> bool, s: Pool): Option<Pool>
  {
    match s.main
    case Sending =>
      if s.sent == n then Some(s.(jobsClosed := true, main := Reading))
      else if |s.jobs| < n then Some(s.(jobs := s.jobs + [s.sent], sent := s.sent + 1))
      else None
    case Reading =>
      if s.results != [] then
        Some(s.(results := s.results[1..], taken := s.taken + [s.results[0]],
                main := if fails(s.results[0]) then Returned(false) else Reading))
      else if s.resultsClosed then Some(s.(main := Returned(true)))
      else None
    case Returned(_) => None
  }

  function CloserStep(s: Pool): Option<Pool>
  {
    if s.jobsClosed && !s.resultsClosed && AllLeft(s.workers) then Some(s.(resultsClosed := true)) else None
  }

  function WorkerStep(n: nat, s: Pool, w: nat): Option<Pool>
    requires w < |s.workers|
  {
    match s.workers[w]
    case Idle =>
      if s.jobs != [] then Some(s.(jobs := s.jobs[1..], workers := s.workers[w := Working(s.jobs[0])]))
      else if s.jobsClosed then Some(s.(workers := s.workers[w := Left]))
      else None
    case Working(i) =>
      if s.resultsClosed then Some(s.(panicked := true))
      else if |s.results| < n then Some(s.(results := s.results + [i], workers := s.workers[w := Idle]))
      else None
    case Left => None
  }

  /** None when the goroutine is blocked or has ended. */
  function Step(n: nat, fails: nat -> bool, s: Pool, a: Actor): Option<Pool>
  {
    match a
    case Main => MainStep(n, fails, s)
    case Closer => CloserStep(s)
    case Worker(w) => if w < |s.workers| then WorkerStep(n, s, w) else None
  }

  /**
   A pool of any size for n jobs, with a worker if there is a job. A batch query has no more workers than jobs; the
   pool that writes NARs keeps one even without a job.
   */
  function Init(n: nat, workers: nat): Pool
    requires n > 0 ==> workers > 0
  {
    Pool(0, [], false, seq(workers, _ => Idle), [], false, [], Sending, false)
  }

  // ---- conservation -------------------------------------------------------------

  function HeldBy(pc: WorkerPc): multiset<nat>
  {
    if pc.Working? then multiset{pc.job} else multiset{}
  }

  function InHand(workers: seq<WorkerPc>): multiset<nat>
  {
    if workers == [] then multiset{} else HeldBy(workers[0]) + InHand(workers[1..])
  }

  function Upto(n: nat): (r: multiset<nat>)
    ensures |r| == n
    ensures forall i: nat :: r[i] == if i < n then 1 else 0
  {
    if n == 0 then multiset{} else Upto(n - 1) + multiset{n - 1}
  }

  lemma {:induction false} InHandUpdate(workers: seq<WorkerPc>, w: nat, pc: WorkerPc)
    requires w < |workers|
    ensures InHand(workers[w := pc]) + HeldBy(workers[w]) == InHand(workers) + HeldBy(pc)
  {
    hide HeldBy;
    if w == 0 {
      assert workers[w := pc][1..] == workers[1..];
    } else {
      var tail := workers[1..];
      assert workers[w := pc][1..] == tail[w - 1 := pc] && workers[w := pc][0] == workers[0];
      InHandUpdate(tail, w - 1, pc);
      Regroup(HeldBy(workers[0]), InHand(tail[w - 1 := pc]), HeldBy(tail[w - 1]), InHand(tail), HeldBy(pc));
    }
  }

  lemma Regroup(h: multiset<nat>, a: multiset<nat>, x: multiset<nat>, b: multiset<nat>, y: multiset<nat>)
    requires a + x == b + y
    ensures (h + a) + x == (h + b) + y
  {
    assert (h + a) + x == h + (a + x) && (h + b) + y == h + (b + y);
  }

  lemma {:induction false} NothingInHand(workers: seq<WorkerPc>)
    requires AllLeft(workers)
    ensures InHand(workers) == multiset{}
  {
    if workers != [] {
      NothingInHand(workers[1..]);
    }
  }

  lemma {:induction false} SomethingInHand(workers: seq<WorkerPc>, w: nat)
    requires w < |workers| && workers[w].Working?
    ensures |InHand(workers)| > 0
  {
    if w > 0 {
      SomethingInHand(workers[1..], w - 1);
    }
  }

  /** Queued, in progress and delivered jobs together. */
  function Everywhere(s: Pool): multiset<nat>
  {
    (multiset(s.jobs) + InHand(s.workers)) + (multiset(s.results) + multiset(s.taken))
  }

  /** They are exactly the jobs sent, each once. */
  ghost predicate Conserved(s: Pool)
  {
    Everywhere(s) == Upto(s.sent)
  }

  /** Who may still do what. */
  ghost predicate Control(n: nat, fails: nat -> bool, s: Pool)
  {
    && !s.panicked
    && s.sent <= n
    && (s.jobsClosed <==> !s.main.Sending?) && (s.jobsClosed ==> s.sent == n)
    && (n > 0 ==> |s.workers| > 0)
    && (forall w :: 0 <= w < |s.workers| && s.workers[w].Left? ==> s.jobsClosed && s.jobs == [])
    && (s.resultsClosed ==> s.jobsClosed && AllLeft(s.workers))
    && (s.main == Returned(true) ==> s.resultsClosed && s.results == [])
    && (s.main != Returned(false) ==> forall i :: i in s.taken ==> !fails(i))
    && (s.main == Returned(false) ==> s.taken != [] && fails(s.taken[|s.taken| - 1]))
  }

  ghost predicate Inv(n: nat, fails: nat -> bool, s: Pool)
  {
    Control(n, fails, s) && Conserved(s)
  }

  lemma {:induction false} IdleInHand(k: nat)
    ensures InHand(seq(k, _ => Idle)) == multiset{}
  {
    if k > 0 {
      IdleInHand(k - 1);
      assert seq(k, _ => Idle)[1..] == seq(k - 1, _ => Idle);
    }
  }

  lemma InitInv(n: nat, fails: nat -> bool, workers: nat)
    requires n > 0 ==> workers > 0
    ensures Inv(n, fails, Init(n, workers))
  {
    IdleInHand(workers);
  }

  lemma FirstAndRest(q: seq<nat>)
    requires q != []
    ensures multiset(q) == multiset{q[0]} + multiset(q[1..])
  {
    assert q == [q[0]] + q[1..];
  }

  /** One job moves from one place to another. */
  lemma Moved(a: multiset<nat>, b: multiset<nat>, a': multiset<nat>, b': multiset<nat>, x: multiset<nat>)
    requires a == a' + x && b' == b + x
    ensures a' + b' == a + b
  {
  }

  lemma MovedAcross(j: multiset<nat>, h: multiset<nat>, r: multiset<nat>, t: multiset<nat>,
                    h': multiset<nat>, r': multiset<nat>, x: multiset<nat>)
    requires h == h' + x && r' == r + x
    ensures (j + h') + (r' + t) == (j + h) + (r + t)
  {
    Moved(h, r, h', r', x);
    assert (j + h') + (r' + t) == (h' + r') + (j + t);
    assert (j + h) + (r + t) == (h + r) + (j + t);
  }

  lemma WorkerConserves(n: nat, s: Pool, w: nat)
    requires w < |s.workers| && Conserved(s) && WorkerStep(n, s, w).Some?
      && (s.workers[w].Working? ==> !s.resultsClosed)
    ensures Conserved(WorkerStep(n, s, w).value)
  {
    var s' := WorkerStep(n, s, w).value;
    InHandUpdate(s.workers, w, s'.workers[w]);
    if s.workers[w].Working? {
      var x := multiset{s.workers[w].job};
      MovedAcross(multiset(s.jobs), InHand(s.workers), multiset(s.results), multiset(s.taken),
                  InHand(s'.workers), multiset(s'.results), x);
    } else if s.jobs != [] {
      FirstAndRest(s.jobs);
      var x := multiset{s.jobs[0]};
      Moved(multiset(s.jobs), InHand(s.workers), multiset(s'.jobs), InHand(s'.workers), x);
    } else {
      assert InHand(s'.workers) + multiset{} == InHand(s'.workers)
        && InHand(s.workers) + multiset{} == InHand(s.workers);
    }
  }

  lemma WorkerControl(n: nat, fails: nat -> bool, s: Pool, w: nat)
    requires Control(n, fails, s) && w < |s.workers| && WorkerStep(n, s, w).Some?
    ensures Control(n, fails, WorkerStep(n, s, w).value)
  {
    var s' := WorkerStep(n, s, w).value;
    assert forall v :: 0 <= v < |s.workers| && v != w ==> s'.workers[v] == s.workers[v];
  }

  lemma MainControl(n: nat, fails: nat -> bool, s: Pool)
    requires Control(n, fails, s) && MainStep(n, fails, s).Some?
    ensures Control(n, fails, MainStep(n, fails, s).value)
  {
  }

  lemma Added(j: multiset<nat>, h: multiset<nat>, rest: multiset<nat>, x: multiset<nat>)
    ensures ((j + x) + h) + rest == ((j + h) + rest) + x
  {
    assert (j + x) + h == (j + h) + x;
  }

  lemma SendConserves(s: Pool)
    requires Conserved(s)
    ensures Conserved(s.(jobs := s.jobs + [s.sent], sent := s.sent + 1))
  {
    var s' := s.(jobs := s.jobs + [s.sent], sent := s.sent + 1);
    var x := multiset{s.sent};
    assert multiset(s'.jobs) == multiset(s.jobs) + x;
    Added(multiset(s.jobs), InHand(s.workers), multiset(s.results) + multiset(s.taken), x);
    assert s'.sent - 1 == s.sent;
  }

  lemma ReceiveConserves(s: Pool, pc: MainPc)
    requires Conserved(s) && s.results != []
    ensures Conserved(s.(results := s.results[1..], taken := s.taken + [s.results[0]], main := pc))
  {
    var s' := s.(results := s.results[1..], taken := s.taken + [s.results[0]], main := pc);
    var x := multiset{s.results[0]};
    FirstAndRest(s.results);
    assert multiset(s'.taken) == multiset(s.taken) + x;
    Moved(multiset(s.results), multiset(s.taken), multiset(s'.results), multiset(s'.taken), x);
  }

  lemma NothingMoves(s: Pool, s': Pool)
    requires Conserved(s) && s'.jobs == s.jobs && s'.workers == s.workers && s'.results == s.results
    requires s'.taken == s.taken && s'.sent == s.sent
    ensures Conserved(s')
  {
    hide InHand, Upto;
  }

  lemma MainConserves(n: nat, fails: nat -> bool, s: Pool)
    requires Conserved(s) && MainStep(n, fails, s).Some?
    ensures Conserved(MainStep(n, fails, s).value)
  {
    hide Conserved;
    if s.main.Sending? && s.sent != n {
      SendConserves(s);
    } else if s.main.Reading? && s.results != [] {
      ReceiveConserves(s, if fails(s.results[0]) then Returned(false) else Reading);
    } else {
      NothingMoves(s, MainStep(n, fails, s).value);
    }
  }

  /** Every step of every goroutine keeps the invariant. */
  lemma StepKeepsInv(n: nat, fails: nat -> bool, s: Pool, a: Actor)
    requires Inv(n, fails, s) && Step(n, fails, s, a).Some?
    ensures Inv(n, fails, Step(n, fails, s, a).value)
  {
    match a
    case Main => MainControl(n, fails, s); MainConserves(n, fails, s);
    case Closer =>
    case Worker(w) => WorkerControl(n, fails, s, w); WorkerConserves(n, s, w);
  }

  // ---- what every schedule gives ---------------------------------------------------

  ghost function Run(n: nat, fails: nat -> bool, s: Pool, schedule: seq<Actor>): Pool
    decreases |schedule|
  {
    if schedule == [] then s
    else
      var next := Step(n, fails, s, schedule[0]);
      Run(n, fails, if next.Some? then next.value else s, schedule[1..])
  }

  lemma {:induction false} RunKeepsInv(n: nat, fails: nat -> bool, s: Pool, schedule: seq<Actor>)
    requires Inv(n, fails, s)
    ensures Inv(n, fails, Run(n, fails, s, schedule))
    decreases |schedule|
  {
    if schedule != [] {
      var next := Step(n, fails, s, schedule[0]);
      if next.Some? {
        StepKeepsInv(n, fails, s, schedule[0]);
      }
      RunKeepsInv(n, fails, if next.Some? then next.value else s, schedule[1..]);
    }
  }

  /**
   No send ever blocks, not even after the reader returned early: the buffers are never full when there is something
   to send.
   */
  lemma SendsNeverBlock(n: nat, fails: nat -> bool, s: Pool)
    requires Inv(n, fails, s)
    ensures s.main.Sending? ==> Step(n, fails, s, Main).Some?
    ensures forall w :: 0 <= w < |s.workers| && s.workers[w].Working? ==> !s.resultsClosed && |s.results| < n
    ensures |s.jobs| + |InHand(s.workers)| + |s.results| + |s.taken| == s.sent
  {
    hide Upto, InHand;
    assert |Upto(s.sent)| == s.sent;
    assert |Everywhere(s)| == |s.jobs| + |InHand(s.workers)| + |s.results| + |s.taken|;
    forall w | 0 <= w < |s.workers| && s.workers[w].Working?
      ensures !s.resultsClosed && |s.results| < n
    {
      SomethingInHand(s.workers, w);
    }
  }

  /** A successful run has received the result of every job exactly once, none of them a failure. */
  lemma SuccessTakesAll(n: nat, fails: nat -> bool, s: Pool)
    requires Inv(n, fails, s) && s.main == Returned(true)
    ensures multiset(s.taken) == Upto(n)
    ensures forall i: nat :: i < n ==> i in s.taken && !fails(i)
  {
    NothingInHand(s.workers);
    if n > 0 {
      assert s.workers[0].Left?;
    }
    SendsNeverBlock(n, fails, s);
    assert s.jobs == [];
    assert multiset(s.taken) == Upto(n);
    forall i: nat | i < n
      ensures i in s.taken
    {
      assert i in multiset(s.taken);
    }
  }

  /** An unsuccessful run took the result of a job that did fail. */
  lemma FailureIsReal(n: nat, fails: nat -> bool, s: Pool)
    requires Inv(n, fails, s) && s.main == Returned(false)
    ensures exists i: nat :: i < n && fails(i) && i in s.taken
  {
    var i := s.taken[|s.taken| - 1];
    assert i in multiset(s.taken);
    assert Upto(s.sent)[i] > 0;
  }

  /** results[r.idx] = r.result for the results in the order they arrived. */
  function Place<V>(out: seq<Option<V>>, taken: seq<nat>, value: nat -> V): (r: seq<Option<V>>)
    ensures |r| == |out|
  {
    if taken == [] then out
    else
      var n := |taken| - 1;
      var before := Place(out, taken[..n], value);
      if taken[n] < |out| then before[taken[n] := Some(value(taken[n]))] else before
  }

  lemma {:induction false} PlaceHolds<V>(out: seq<Option<V>>, taken: seq<nat>, value: nat -> V, i: nat)
    requires i < |out| && i in taken
    ensures Place(out, taken, value)[i] == Some(value(i))
  {
    var n := |taken| - 1;
    if taken[n] != i {
      assert taken == taken[..n] + [taken[n]];
      PlaceHolds(out, taken[..n], value, i);
    }
  }

  /** Whatever the schedule and the number of workers, a successful pool puts the result of job i at position i. */
  lemma SuccessIsScheduleIndependent<V>(n: nat, fails: nat -> bool, workers: nat, schedule: seq<Actor>, value: nat -> V)
    requires n > 0 ==> workers > 0
    requires Run(n, fails, Init(n, workers), schedule).main == Returned(true)
    ensures Place(seq(n, _ => None), Run(n, fails, Init(n, workers), schedule).taken, value)
         == seq(n, i requires 0 <= i < n => Some(value(i)))
  {
    var s := Run(n, fails, Init(n, workers), schedule);
    InitInv(n, fails, workers);
    RunKeepsInv(n, fails, Init(n, workers), schedule);
    hide Run, Init, Inv;
    SuccessTakesAll(n, fails, s);
    AllPlaced(n, s.taken, value);
  }

  lemma AllPlaced<V>(n: nat, taken: seq<nat>, value: nat -> V)
    requires forall i: nat :: i < n ==> i in taken
    ensures Place(seq(n, _ => None), taken, value) == seq(n, i requires 0 <= i < n => Some(value(i)))
  {
    var out: seq<Option<V>> := seq(n, _ => None);
    forall i: nat | i < n
      ensures Place(out, taken, value)[i] == Some(value(i))
    {
      PlaceHolds(out, taken, value, i);
    }
  }

  /** m[hash] = exists for the results in the order they arrived; value(i) is the answer of job i. */
  function Tabulate<K(==), V>(keys: seq<K>, taken: seq<nat>, value: nat -> V): map<K, V>
  {
    if taken == [] then map[]
    else
      var n := |taken| - 1;
      var before := Tabulate(keys, taken[..n], value);
      if taken[n] < |keys| then before[keys[taken[n]] := value(taken[n])] else before
  }

  lemma {:induction false} TabulateHolds<K(!new), V>(keys: seq<K>, taken: seq<nat>, value: nat -> V)
    ensures forall i :: i in taken && i < |keys| ==> keys[i] in Tabulate(keys, taken, value)
    ensures forall k :: k in Tabulate(keys, taken, value) ==>
      exists i :: i in taken && i < |keys| && keys[i] == k && Tabulate(keys, taken, value)[k] == value(i)
  {
    if taken != [] {
      var n := |taken| - 1;
      TabulateHolds(keys, taken[..n], value);
      assert taken == taken[..n] + [taken[n]];
    }
  }

  /** A successful batch query answers for exactly the hashes asked about, each as one of its jobs did. */
  lemma SuccessTabulatesAll<K(!new), V>(keys: seq<K>, fails: nat -> bool, s: Pool, value: nat -> V)
    requires Inv(|keys|, fails, s) && s.main == Returned(true)
    ensures Tabulate(keys, s.taken, value).Keys == Elems(keys)
    ensures forall k :: k in keys ==>
      exists i: nat :: i < |keys| && keys[i] == k && Tabulate(keys, s.taken, value)[k] == value(i)
  {
    SuccessTakesAll(|keys|, fails, s);
    TabulateHolds(keys, s.taken, value);
    var m := Tabulate(keys, s.taken, value);
    forall k | k in keys
      ensures k in m
    {
      var i :| 0 <= i < |keys| && keys[i] == k;
      assert i in s.taken;
    }
  }

  // ---- ending ------------------------------------------------------------------------

  /**
   Some goroutine can go on until the reader has returned and every worker has left: none leaks, even after an early
   return.
   */
  lemma SomeoneCanStep(n: nat, fails: nat -> bool, s: Pool)
    requires Inv(n, fails, s) && !(s.main.Returned? && AllLeft(s.workers))
    ensures exists a :: Step(n, fails, s, a).Some?
  {
    hide InHand;
    SendsNeverBlock(n, fails, s);
    if s.main.Sending? {
      assert Step(n, fails, s, Main).Some?;
    } else if AllLeft(s.workers) {
      if s.resultsClosed || s.results != [] {
        assert Step(n, fails, s, Main).Some?;
      } else {
        assert Step(n, fails, s, Closer).Some?;
      }
    } else {
      var w :| 0 <= w < |s.workers| && !s.workers[w].Left?;
      assert Step(n, fails, s, Worker(w)).Some?;
    }
  }

  function StillIn(workers: seq<WorkerPc>): nat
  {
    if workers == [] then 0 else (if workers[0].Left? then 0 else 1) + StillIn(workers[1..])
  }

  lemma {:induction false} StillInUpdate(workers: seq<WorkerPc>, w: nat, pc: WorkerPc)
    requires w < |workers| && !workers[w].Left?
    ensures StillIn(workers[w := pc]) == StillIn(workers) - (if pc.Left? then 1 else 0)
  {
    if w == 0 {
      assert workers[w := pc][1..] == workers[1..];
    } else {
      assert workers[w := pc][1..] == workers[1..][w - 1 := pc];
      StillInUpdate(workers[1..], w - 1, pc);
    }
  }

  /** Work left: a job takes four steps, each goroutine one more to end. */
  function Measure(n: nat, s: Pool): int
  {
    4 * (n - s.sent) + 3 * |s.jobs| + 2 * |InHand(s.workers)| + |s.results| + StillIn(s.workers)
    + (if s.jobsClosed then 0 else 1) + (if s.resultsClosed then 0 else 1) + (if s.main.Returned? then 0 else 1)
  }

  lemma WorkerMeasure(n: nat, fails: nat -> bool, s: Pool, w: nat)
    requires Inv(n, fails, s) && w < |s.workers| && WorkerStep(n, s, w).Some?
    ensures Measure(n, WorkerStep(n, s, w).value) < Measure(n, s)
  {
    assert s.workers[w].Working? ==> !s.resultsClosed;
    hide InHand, StillIn, Inv;
    var s' := WorkerStep(n, s, w).value;
    assert s'.workers == s.workers[w := s'.workers[w]];
    InHandUpdate(s.workers, w, s'.workers[w]);
    StillInUpdate(s.workers, w, s'.workers[w]);
    SameSize(InHand(s'.workers), HeldBy(s.workers[w]), InHand(s.workers), HeldBy(s'.workers[w]));
  }

  lemma SameSize(a: multiset<nat>, x: multiset<nat>, b: multiset<nat>, y: multiset<nat>)
    requires a + x == b + y
    ensures |a| + |x| == |b| + |y|
  {
    assert |a + x| == |b + y|;
  }

  /** Every step uses up some of a bounded amount of work, so every pool comes to its end. */
  lemma StepsRunOut(n: nat, fails: nat -> bool, s: Pool, a: Actor)
    requires Inv(n, fails, s) && Step(n, fails, s, a).Some?
    ensures 0 <= Measure(n, Step(n, fails, s, a).value) < Measure(n, s)
  {
    StepKeepsInv(n, fails, s, a);
    MeasureIsNatural(n, fails, Step(n, fails, s, a).value);
    match a
    case Main => MainMeasure(n, fails, s);
    case Closer => hide InHand, StillIn, Conserved, Control;
    case Worker(w) => WorkerMeasure(n, fails, s, w);
  }

  lemma MeasureIsNatural(n: nat, fails: nat -> bool, s: Pool)
    requires Inv(n, fails, s)
    ensures Measure(n, s) >= 0
  {
    hide InHand, StillIn, Conserved;
  }

  lemma MainMeasure(n: nat, fails: nat -> bool, s: Pool)
    requires Inv(n, fails, s) && MainStep(n, fails, s).Some?
    ensures Measure(n, MainStep(n, fails, s).value) < Measure(n, s)
  {
    hide InHand, StillIn, Conserved;
  }
}
