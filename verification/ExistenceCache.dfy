/**
 The in-memory existence cache under concurrent calls of Exists, as a step
 relation over goroutine program counters.

 A step is one statement between two points where another goroutine may run:
 taking the mutex, one read or write under it, releasing it, sending a request,
 receiving its answer, waking up on a closed channel or on cancellation.
 */
module ExistenceCache {
  import opened Sequences

  type Hash = string
  type Chan = nat

  datatype Answer = Found | NotFound | Failed
  datatype Outcome = Ok(exists_: bool) | Err

  /** Where one call of Exists stands; the names in brackets say what it holds. */
  datatype Pc =
    | Start                              // before taking the mutex
    | Locked                             // holds the mutex, looks at results and inflight
    | HitUnlock(v: bool)                 // found a result, about to release
    | WaitUnlock(ch: Chan)               // found a request in flight, about to release
    | OwnUnlock(ch: Chan)                // registered its own request, about to release
    | Waiting(ch: Chan)                  // selects on the channel and the context
    | Woken                              // the channel was closed
    | WokenLocked                        // holds the mutex again
    | WokenUnlock(v: bool)               // has read the result, about to release
    | Requesting(ch: Chan)               // about to send the request
    | Sent(ch: Chan)                     // waits for the response
    | Answered(ch: Chan, a: Answer)      // has the response
    | Deleting(ch: Chan, a: Answer)      // holds the mutex, about to delete the in-flight entry
    | Recording(ch: Chan, a: Answer)     // about to record the result
    | Closing(ch: Chan, a: Answer)       // about to close the channel
    | FinishUnlock(a: Answer)            // about to release
    | Done(r: Outcome)

  datatype Thread = Thread(hash: Hash, pc: Pc)

  datatype Event = Asked(hash: Hash) | Replied(hash: Hash, answer: Answer)

  /** chans lists the channels made so far, each with the hash it was made for. */
  datatype State = State(
    mu: Option<nat>,
    results: map<Hash, bool>,
    inflight: map<Hash, Chan>,
    chans: seq<Hash>,
    closed: set<Chan>,
    threads: seq<Thread>,
    log: seq<Event>,
    panicked: bool)

  /** What the environment decides at a step; cancelled is a select that takes the context's end. */
  datatype Choice = Choice(answer: Answer, cancelled: bool)

  function ResultOf(a: Answer): Outcome
  {
    if a.Failed? then Err else Ok(a.Found?)
  }

  predicate Holds(pc: Pc)
  {
    pc.Locked? || pc.HitUnlock? || pc.WaitUnlock? || pc.OwnUnlock? || pc.WokenLocked? || pc.WokenUnlock?
    || pc.Deleting? || pc.Recording? || pc.Closing? || pc.FinishUnlock?
  }

  /** Where a call for h goes next, None when it has to wait. */
  function NextPc(s: State, h: Hash, pc: Pc, c: Choice): Option<Pc>
  {
    match pc
    case Start => if s.mu.None? then Some(Locked) else None
    case Locked =>
      if h in s.results then Some(HitUnlock(s.results[h]))
      else if h in s.inflight then Some(WaitUnlock(s.inflight[h]))
      else Some(OwnUnlock(|s.chans|))
    case HitUnlock(v) => Some(Done(Ok(v)))
    case WaitUnlock(ch) => Some(Waiting(ch))
    case OwnUnlock(ch) => Some(Requesting(ch))
    case Waiting(ch) => if c.cancelled then Some(Done(Err)) else if ch in s.closed then Some(Woken) else None
    case Woken => if s.mu.None? then Some(WokenLocked) else None
    case WokenLocked => Some(WokenUnlock(h in s.results && s.results[h]))
    case WokenUnlock(v) => Some(Done(Ok(v)))
    case Requesting(ch) => Some(Sent(ch))
    case Sent(ch) => Some(Answered(ch, c.answer))
    case Answered(ch, a) => if s.mu.None? then Some(Deleting(ch, a)) else None
    case Deleting(ch, a) => Some(Recording(ch, a))
    case Recording(ch, a) => Some(Closing(ch, a))
    case Closing(ch, a) => Some(FinishUnlock(a))
    case FinishUnlock(a) => Some(Done(ResultOf(a)))
    case Done(_) => None
  }

  /** What a call at pc that goes on to pc' does to the shared state. */
  function Apply(s: State, t: nat, pc': Pc): (r: State)
    requires t < |s.threads|
  {
    var h, pc := s.threads[t].hash, s.threads[t].pc;
    State(
      if Holds(pc') then Some(t) else if Holds(pc) then None else s.mu,
      if pc.Recording? && !pc.a.Failed? then s.results[h := pc.a.Found?] else s.results,
      if pc'.OwnUnlock? then s.inflight[h := pc'.ch] else if pc.Deleting? then s.inflight - {h} else s.inflight,
      if pc'.OwnUnlock? then s.chans + [h] else s.chans,
      if pc.Closing? then s.closed + {pc.ch} else s.closed,
      s.threads[t := Thread(h, pc')],
      if pc.Requesting? then s.log + [Asked(h)] else if pc'.Answered? then s.log + [Replied(h, pc'.a)] else s.log,
      s.panicked || (pc.Closing? && pc.ch in s.closed))
  }

  /** The next state when thread t runs, None when it cannot. */
  function Step(s: State, t: nat, c: Choice): (r: Option<State>)
    requires t < |s.threads|
  {
    var next := NextPc(s, s.threads[t].hash, s.threads[t].pc, c);
    if next.None? then None else Some(Apply(s, t, next.value))
  }

  function Init(hashes: seq<Hash>): State
  {
    State(None, map[], map[], [], {}, seq(|hashes|, i requires 0 <= i < |hashes| => Thread(hashes[i], Start)), [],
      false)
  }

  // ---- the invariant --------------------------------------------------------------

  /** The channel a thread made and has not closed yet. */
  function OwnedChan(pc: Pc): Option<Chan>
  {
    if pc.OwnUnlock? || pc.Requesting? || pc.Sent? || pc.Answered? || pc.Deleting? || pc.Recording? || pc.Closing?
    then Some(pc.ch) else None
  }

  predicate OwnsEntry(pc: Pc)
  {
    pc.OwnUnlock? || pc.Requesting? || pc.Sent? || pc.Answered? || pc.Deleting?
  }

  ghost predicate Owned(s: State, ch: Chan)
  {
    exists u :: 0 <= u < |s.threads| && OwnedChan(s.threads[u].pc) == Some(ch)
  }

  /** A value handed out without an error comes from a response: true only from a 200. */
  ghost predicate Justified(s: State, h: Hash, v: bool)
  {
    if v then Replied(h, Found) in s.log else Replied(h, NotFound) in s.log || Replied(h, Failed) in s.log
  }

  ghost predicate Settled(s: State, h: Hash)
  {
    h in s.results || Replied(h, Failed) in s.log
  }

  /** What the program counter of a thread promises. */
  ghost predicate PcInv(s: State, h: Hash, pc: Pc)
  {
    && (OwnedChan(pc).Some? ==> pc.ch < |s.chans| && s.chans[pc.ch] == h && pc.ch !in s.closed)
    && (OwnsEntry(pc) ==> h in s.inflight && s.inflight[h] == pc.ch)
    && (pc.WaitUnlock? || pc.Waiting? ==>
          pc.ch < |s.chans| && s.chans[pc.ch] == h && (pc.ch in s.closed || Owned(s, pc.ch)))
    && (pc.Answered? || pc.Deleting? || pc.Recording? || pc.Closing? || pc.FinishUnlock? ==> Replied(h, pc.a) in s.log)
    && (pc.Recording? ==> h !in s.inflight && h !in s.results)
    && (pc.Closing? && !pc.a.Failed? ==> h in s.results)
    && (pc.Woken? || pc.WokenLocked? ==> Settled(s, h))
    && (pc.HitUnlock? || pc.WokenUnlock? ==> Justified(s, h, pc.v))
    && (pc.Done? && pc.r.Ok? ==> Justified(s, h, pc.r.exists_))
  }

  ghost predicate ThreadInv(s: State, t: nat)
    requires t < |s.threads|
  {
    (Holds(s.threads[t].pc) <==> s.mu == Some(t)) && PcInv(s, s.threads[t].hash, s.threads[t].pc)
  }

  ghost predicate EntryOwned(s: State, h: Hash)
  {
    exists u :: 0 <= u < |s.threads| && OwnsEntry(s.threads[u].pc) && s.threads[u].hash == h
  }

  ghost predicate SharedInv(s: State)
  {
    && !s.panicked
    && (s.mu.Some? ==> s.mu.value < |s.threads|)
    && s.results.Keys !! s.inflight.Keys
    && (forall h :: h in s.inflight ==> EntryOwned(s, h))
    && (forall h :: h in s.results ==> Replied(h, if s.results[h] then Found else NotFound) in s.log)
    && (forall ch :: ch in s.closed ==> ch < |s.chans| && Settled(s, s.chans[ch]))
    && (forall t, u :: 0 <= t < |s.threads| && 0 <= u < |s.threads| && t != u && OwnedChan(s.threads[t].pc).Some? ==>
          OwnedChan(s.threads[t].pc) != OwnedChan(s.threads[u].pc))
  }

  ghost predicate Inv(s: State)
  {
    SharedInv(s) && forall t :: 0 <= t < |s.threads| ==> ThreadInv(s, t)
  }

  lemma InitInv(hashes: seq<Hash>)
    ensures Inv(Init(hashes))
  {
  }

  // ---- what a step can do to the others ---------------------------------------------

  /** The shared state only grows, except for one in-flight entry under the mutex. */
  ghost predicate Effect(s: State, s': State, t: nat)
    requires t < |s.threads|
  {
    var h, pc := s.threads[t].hash, s.threads[t].pc;
    && |s'.threads| == |s.threads| && s'.threads[t].hash == h
    && (forall u :: 0 <= u < |s.threads| && u != t ==> s'.threads[u] == s.threads[u])
    && (forall e :: e in s.log ==> e in s'.log)
    && (forall k :: k in s.results ==> k in s'.results && s'.results[k] == s.results[k])
    && s.chans <= s'.chans
    && (forall k :: k in s'.results && k !in s.results ==> k == h && s.mu == Some(t))
    && (forall k :: k != h ==>
          (k in s'.inflight <==> k in s.inflight) && (k in s.inflight ==> s'.inflight[k] == s.inflight[k]))
    && (h in s.inflight && !pc.Deleting? ==> h in s'.inflight && s'.inflight[h] == s.inflight[h])
    && (h !in s.inflight && h in s'.inflight ==> s.mu == Some(t) && s'.inflight[h] == |s.chans|)
    && s'.closed == (if pc.Closing? then s.closed + {pc.ch} else s.closed)
    && (s'.mu == s.mu || (s.mu == None && s'.mu == Some(t)) || (s.mu == Some(t) && s'.mu == None))
  }

  lemma StepEffect(s: State, t: nat, c: Choice)
    requires t < |s.threads| && ThreadInv(s, t) && Step(s, t, c).Some?
    ensures Effect(s, Step(s, t, c).value, t)
    ensures s.panicked || !Step(s, t, c).value.panicked
  {
    var s' := Step(s, t, c).value;
    assert forall e :: e in s.log ==> e in s'.log;
  }

  /** The channel a thread owns is kept, given up by closing it, or newly made. */
  lemma StepOwnership(s: State, t: nat, c: Choice)
    requires t < |s.threads| && ThreadInv(s, t) && Step(s, t, c).Some?
    ensures var pc, pc' := s.threads[t].pc, Step(s, t, c).value.threads[t].pc;
      && (OwnedChan(pc).Some? ==> OwnedChan(pc') == OwnedChan(pc) || (pc.Closing? && OwnedChan(pc').None?))
      && (OwnedChan(pc).None? && OwnedChan(pc').Some? ==> OwnedChan(pc') == Some(|s.chans|))
      && (OwnsEntry(pc) ==> OwnsEntry(pc') || pc.Deleting?)
  {
  }

  lemma OwnedStep(s: State, t: nat, c: Choice, ch: Chan)
    requires t < |s.threads| && ThreadInv(s, t) && Step(s, t, c).Some? && Owned(s, ch)
    ensures Owned(Step(s, t, c).value, ch) || ch in Step(s, t, c).value.closed
  {
    StepEffect(s, t, c);
    StepOwnership(s, t, c);
    var s' := Step(s, t, c).value;
    hide Step;
    var u :| 0 <= u < |s.threads| && OwnedChan(s.threads[u].pc) == Some(ch);
    if u != t {
      assert OwnedChan(s'.threads[u].pc) == Some(ch);
    } else if !s.threads[t].pc.Closing? {
      assert OwnedChan(s'.threads[t].pc) == Some(ch);
    }
  }

  /** A thread that did not move keeps its promises. */
  lemma BystanderInv(s: State, s': State, t: nat, u: nat)
    requires t < |s.threads| && u < |s.threads| && u != t && Effect(s, s', t)
    requires ThreadInv(s, t) && ThreadInv(s, u)
    requires OwnedChan(s.threads[u].pc).Some? ==> OwnedChan(s.threads[t].pc) != OwnedChan(s.threads[u].pc)
    requires (s.threads[u].pc.WaitUnlock? || s.threads[u].pc.Waiting?) ==>
      Owned(s', s.threads[u].pc.ch) || s.threads[u].pc.ch in s'.closed
    ensures ThreadInv(s', u)
  {
  }

  /** The thread that moved reaches a program counter whose promises hold. */
  lemma MoverInv(s: State, t: nat, c: Choice)
    requires Inv(s) && t < |s.threads| && Step(s, t, c).Some?
    ensures ThreadInv(Step(s, t, c).value, t)
  {
    assert ThreadInv(s, t);
    var s', h, pc := Step(s, t, c).value, s.threads[t].hash, s.threads[t].pc;
    if pc.Locked? && h !in s.results && h in s.inflight {
      EntryHasOwner(s, h);
      OwnedStep(s, t, c, s.inflight[h]);
    }
    if pc.WaitUnlock? && pc.ch !in s.closed {
      OwnedStep(s, t, c, pc.ch);
    }
    MovedPc(s, t, c);
  }

  lemma EntryHasOwner(s: State, h: Hash)
    requires Inv(s) && h in s.inflight
    ensures Owned(s, s.inflight[h]) && s.inflight[h] < |s.chans| && s.chans[s.inflight[h]] == h
    ensures s.inflight[h] !in s.closed
  {
    assert EntryOwned(s, h);
    var u :| 0 <= u < |s.threads| && OwnsEntry(s.threads[u].pc) && s.threads[u].hash == h;
    assert ThreadInv(s, u);
    assert OwnedChan(s.threads[u].pc) == Some(s.inflight[h]);
  }

  lemma MovedMutex(s: State, t: nat, c: Choice)
    requires t < |s.threads| && ThreadInv(s, t) && Step(s, t, c).Some?
    ensures Holds(Step(s, t, c).value.threads[t].pc) <==> Step(s, t, c).value.mu == Some(t)
  {
  }

  lemma MovedPc(s: State, t: nat, c: Choice)
    requires SharedInv(s) && t < |s.threads| && ThreadInv(s, t) && Step(s, t, c).Some?
    requires s.threads[t].pc.Locked? && s.threads[t].hash !in s.results && s.threads[t].hash in s.inflight ==>
      var ch := s.inflight[s.threads[t].hash];
      ch < |s.chans| && s.chans[ch] == s.threads[t].hash && Owned(Step(s, t, c).value, ch)
    requires s.threads[t].pc.WaitUnlock? && s.threads[t].pc.ch !in s.closed ==>
      Owned(Step(s, t, c).value, s.threads[t].pc.ch)
    ensures ThreadInv(Step(s, t, c).value, t)
  {
    var pc, s' := s.threads[t].pc, Step(s, t, c).value;
    assert s'.threads[t].hash == s.threads[t].hash;
    MovedMutex(s, t, c);
    if pc.Locked? {
      MovedFromLocked(s, t, c);
    } else if pc.OwnUnlock? || pc.Requesting? || pc.Sent? || pc.Answered? {
      MovedRequest(s, t, c);
    } else if pc.Deleting? || pc.Recording? || pc.Closing? || pc.FinishUnlock? {
      MovedEnding(s, t, c);
    } else {
      MovedReader(s, t, c);
    }
  }

  /** A call on its way to an answer from the server. */
  lemma MovedRequest(s: State, t: nat, c: Choice)
    requires SharedInv(s) && t < |s.threads| && ThreadInv(s, t) && Step(s, t, c).Some?
    requires
      var pc := s.threads[t].pc;
      pc.OwnUnlock? || pc.Requesting? || pc.Sent? || pc.Answered?
    ensures PcInv(Step(s, t, c).value, s.threads[t].hash, Step(s, t, c).value.threads[t].pc)
  {
    var s' := Step(s, t, c).value;
    assert forall e :: e in s.log ==> e in s'.log;
  }

  /** A call that has its answer and records it. */
  lemma MovedEnding(s: State, t: nat, c: Choice)
    requires SharedInv(s) && t < |s.threads| && ThreadInv(s, t) && Step(s, t, c).Some?
    requires
      var pc := s.threads[t].pc;
      pc.Deleting? || pc.Recording? || pc.Closing? || pc.FinishUnlock?
    ensures PcInv(Step(s, t, c).value, s.threads[t].hash, Step(s, t, c).value.threads[t].pc)
  {
    var s' := Step(s, t, c).value;
    assert s'.log == s.log;
  }

  /** A call that begins, has found a result, or waits for another one's request. */
  lemma MovedReader(s: State, t: nat, c: Choice)
    requires SharedInv(s) && t < |s.threads| && ThreadInv(s, t) && Step(s, t, c).Some?
    requires
      var pc := s.threads[t].pc;
      pc.Start? || pc.HitUnlock? || pc.WaitUnlock? || pc.Waiting? || pc.Woken? || pc.WokenLocked? || pc.WokenUnlock?
    requires s.threads[t].pc.WaitUnlock? && s.threads[t].pc.ch !in s.closed ==>
      Owned(Step(s, t, c).value, s.threads[t].pc.ch)
    ensures PcInv(Step(s, t, c).value, s.threads[t].hash, Step(s, t, c).value.threads[t].pc)
  {
    var s' := Step(s, t, c).value;
    assert s'.log == s.log && s'.results == s.results;
  }

  lemma MovedFromLocked(s: State, t: nat, c: Choice)
    requires SharedInv(s) && t < |s.threads| && s.threads[t].pc.Locked? && Step(s, t, c).Some?
    requires s.threads[t].hash !in s.results && s.threads[t].hash in s.inflight ==>
      var ch := s.inflight[s.threads[t].hash];
      ch < |s.chans| && s.chans[ch] == s.threads[t].hash && Owned(Step(s, t, c).value, ch)
    ensures PcInv(Step(s, t, c).value, s.threads[t].hash, Step(s, t, c).value.threads[t].pc)
  {
    var h := s.threads[t].hash;
    if h in s.results {
    } else if h in s.inflight {
    } else {
      assert |s.chans| !in s.closed;
    }
  }

  lemma EntriesStep(s: State, t: nat, c: Choice, h: Hash)
    requires SharedInv(s) && t < |s.threads| && ThreadInv(s, t) && Step(s, t, c).Some?
      && h in Step(s, t, c).value.inflight
    ensures EntryOwned(Step(s, t, c).value, h)
  {
    StepEffect(s, t, c);
    StepOwnership(s, t, c);
    var s' := Step(s, t, c).value;
    if h in s.inflight {
      assert EntryOwned(s, h);
      var u :| 0 <= u < |s.threads| && OwnsEntry(s.threads[u].pc) && s.threads[u].hash == h;
      assert u != t ==> s'.threads[u] == s.threads[u];
      assert OwnsEntry(s'.threads[u].pc) && s'.threads[u].hash == h;
    } else {
      assert OwnsEntry(s'.threads[t].pc) && s'.threads[t].hash == h;
    }
  }

  lemma ChannelsStep(s: State, t: nat, c: Choice, u: nat, v: nat)
    requires Inv(s) && t < |s.threads| && Step(s, t, c).Some?
    requires u < |s.threads| && v < |s.threads| && u != v
    requires OwnedChan(Step(s, t, c).value.threads[u].pc).Some?
    ensures OwnedChan(Step(s, t, c).value.threads[u].pc) != OwnedChan(Step(s, t, c).value.threads[v].pc)
  {
    assert ThreadInv(s, u) && ThreadInv(s, v) && ThreadInv(s, t);
    StepEffect(s, t, c);
    StepOwnership(s, t, c);
    hide Step;
    var s' := Step(s, t, c).value;
    assert u != t ==> s'.threads[u] == s.threads[u];
    assert v != t ==> s'.threads[v] == s.threads[v];
  }

  lemma SettledStep(s: State, t: nat, c: Choice)
    requires SharedInv(s) && t < |s.threads| && ThreadInv(s, t) && Step(s, t, c).Some?
    ensures var s' := Step(s, t, c).value;
      && (forall ch :: ch in s'.closed ==> ch < |s'.chans| && Settled(s', s'.chans[ch]))
      && (forall h :: h in s'.results ==> Replied(h, if s'.results[h] then Found else NotFound) in s'.log)
      && s'.results.Keys !! s'.inflight.Keys
  {
    StepEffect(s, t, c);
    var s' := Step(s, t, c).value;
    assert forall ch :: ch in s'.closed ==> ch in s.closed || (s.threads[t].pc.Closing? && ch == s.threads[t].pc.ch);
    assert forall h :: h in s'.results ==> h in s.results || s.threads[t].pc.Recording?;
  }

  lemma SharedStep(s: State, t: nat, c: Choice)
    requires Inv(s) && t < |s.threads| && Step(s, t, c).Some?
    ensures SharedInv(Step(s, t, c).value)
  {
    assert ThreadInv(s, t);
    var s' := Step(s, t, c).value;
    StepEffect(s, t, c);
    SettledStep(s, t, c);
    forall h | h in s'.inflight
      ensures EntryOwned(s', h)
    {
      EntriesStep(s, t, c, h);
    }
    forall u, v | 0 <= u < |s'.threads| && 0 <= v < |s'.threads| && u != v && OwnedChan(s'.threads[u].pc).Some?
      ensures OwnedChan(s'.threads[u].pc) != OwnedChan(s'.threads[v].pc)
    {
      ChannelsStep(s, t, c, u, v);
    }
  }

  /** Every step of every thread keeps the invariant. */
  lemma StepInv(s: State, t: nat, c: Choice)
    requires Inv(s) && t < |s.threads| && Step(s, t, c).Some?
    ensures Inv(Step(s, t, c).value)
  {
    var s' := Step(s, t, c).value;
    SharedStep(s, t, c);
    StepEffect(s, t, c);
    forall u | 0 <= u < |s'.threads|
      ensures ThreadInv(s', u)
    {
      if u == t {
        MoverInv(s, t, c);
      } else {
        var pc := s.threads[u].pc;
        assert ThreadInv(s, t) && ThreadInv(s, u);
        if (pc.WaitUnlock? || pc.Waiting?) && pc.ch !in s.closed {
          OwnedStep(s, t, c, pc.ch);
        }
        BystanderInv(s, s', t, u);
      }
    }
  }

  // ---- runs -------------------------------------------------------------------------

  datatype Turn = Turn(thread: nat, choice: Choice)

  /** A schedule names the thread to run at each moment; a thread that cannot run passes. */
  ghost function Run(s: State, schedule: seq<Turn>): (r: State)
    ensures |r.threads| == |s.threads|
    decreases |schedule|
  {
    if schedule == [] then s
    else
      var turn := schedule[0];
      var next := if turn.thread < |s.threads| && Step(s, turn.thread, turn.choice).Some?
                  then Step(s, turn.thread, turn.choice).value else s;
      Run(next, schedule[1..])
  }

  lemma {:induction false} RunInv(s: State, schedule: seq<Turn>)
    requires Inv(s)
    ensures Inv(Run(s, schedule))
    decreases |schedule|
  {
    if schedule != [] {
      var turn := schedule[0];
      if turn.thread < |s.threads| && Step(s, turn.thread, turn.choice).Some? {
        StepInv(s, turn.thread, turn.choice);
        RunInv(Step(s, turn.thread, turn.choice).value, schedule[1..]);
      } else {
        RunInv(s, schedule[1..]);
      }
    }
  }

  predicate BothOwn(s: State, t: nat, u: nat)
  {
    && t < |s.threads| && u < |s.threads| && s.threads[t].hash == s.threads[u].hash
    && OwnsEntry(s.threads[t].pc) && OwnsEntry(s.threads[u].pc)
  }

  predicate Waits(s: State, t: nat)
  {
    t < |s.threads| && (s.threads[t].pc.WaitUnlock? || s.threads[t].pc.Waiting?)
  }

  /**
   After any interleaving of any number of calls: no channel was closed twice, a
   hash is never both recorded and in flight, every entry in flight has exactly
   one owner, and every channel waited on is closed or has an owner to close it.
   */
  lemma InterleavingsAreSafe(hashes: seq<Hash>, schedule: seq<Turn>)
    ensures var s := Run(Init(hashes), schedule);
      && !s.panicked
      && s.results.Keys !! s.inflight.Keys
      && (forall h :: h in s.inflight ==> EntryOwned(s, h))
      && (forall t, u :: BothOwn(s, t, u) ==> t == u)
      && (forall t: nat :: Waits(s, t) ==> s.threads[t].pc.ch in s.closed || Owned(s, s.threads[t].pc.ch))
  {
    InitInv(hashes);
    RunInv(Init(hashes), schedule);
    var s := Run(Init(hashes), schedule);
    forall t, u | BothOwn(s, t, u)
      ensures t == u
    {
      assert ThreadInv(s, t) && ThreadInv(s, u);
    }
    forall t: nat | Waits(s, t)
      ensures s.threads[t].pc.ch in s.closed || Owned(s, s.threads[t].pc.ch)
    {
      assert ThreadInv(s, t);
    }
  }

  /**
   A call that reports a path present was answered 200 for it; one that reports it
   absent without error saw a 404 or shared a failed request.
   */
  lemma ReportsAreJustified(hashes: seq<Hash>, schedule: seq<Turn>, t: nat)
    requires t < |hashes|
    ensures var s := Run(Init(hashes), schedule);
      s.threads[t].pc.Done? && s.threads[t].pc.r.Ok? ==>
        var h := s.threads[t].hash;
        if s.threads[t].pc.r.exists_ then Replied(h, Found) in s.log
        else Replied(h, NotFound) in s.log || Replied(h, Failed) in s.log
  {
    InitInv(hashes);
    RunInv(Init(hashes), schedule);
    assert ThreadInv(Run(Init(hashes), schedule), t);
  }

  lemma ResultStays(s: State, t: nat, c: Choice, h: Hash)
    requires Inv(s) && t < |s.threads| && Step(s, t, c).Some? && h in s.results
    ensures var s' := Step(s, t, c).value;
      && h in s'.results && s'.results[h] == s.results[h]
      && s.log <= s'.log && Asked(h) !in s'.log[|s.log|..]
  {
    assert ThreadInv(s, t);
    StepEffect(s, t, c);
  }

  lemma {:induction false} RunKeepsResult(s: State, schedule: seq<Turn>, h: Hash)
    requires Inv(s) && h in s.results
    ensures var s' := Run(s, schedule);
      && h in s'.results && s'.results[h] == s.results[h]
      && s.log <= s'.log && Asked(h) !in s'.log[|s.log|..]
    decreases |schedule|
  {
    hide Step, Inv;
    if schedule != [] {
      var turn := schedule[0];
      if turn.thread < |s.threads| && Step(s, turn.thread, turn.choice).Some? {
        var next := Step(s, turn.thread, turn.choice).value;
        StepInv(s, turn.thread, turn.choice);
        ResultStays(s, turn.thread, turn.choice, h);
        RunKeepsResult(next, schedule[1..], h);
        var s' := Run(s, schedule);
        assert s'.log[|s.log|..] == next.log[|s.log|..] + s'.log[|next.log|..];
      } else {
        RunKeepsResult(s, schedule[1..], h);
      }
    }
  }

  /** Once recorded, a result never changes and no further request is sent for it, however long the calls go on. */
  lemma ResultsAreFinal(hashes: seq<Hash>, before: seq<Turn>, after: seq<Turn>, h: Hash)
    requires h in Run(Init(hashes), before).results
    ensures
      var s := Run(Init(hashes), before);
      var s' := Run(s, after);
      && h in s'.results && s'.results[h] == s.results[h]
      && s.log <= s'.log && Asked(h) !in s'.log[|s.log|..]
  {
    InitInv(hashes);
    RunInv(Init(hashes), before);
    RunKeepsResult(Run(Init(hashes), before), after, h);
  }

  // ---- shared requests -------------------------------------------------------------------

  /** A request under way, or answered and not recorded yet. */
  predicate IsBusy(pc: Pc)
  {
    pc.Sent? || ((pc.Answered? || pc.Deleting? || pc.Recording?) && !pc.a.Failed?)
  }

  ghost predicate Busy(s: State, h: Hash)
  {
    exists t: nat :: t < |s.threads| && s.threads[t].hash == h && IsBusy(s.threads[t].pc)
  }

  /** Apart from those that failed, one request at most was sent for each hash. */
  ghost predicate SharedFor(s: State, h: Hash)
  {
    multiset(s.log)[Asked(h)] ==
      multiset(s.log)[Replied(h, Failed)] + if h in s.results || Busy(s, h) then 1 else 0
  }

  ghost predicate AllShared(s: State)
  {
    forall h :: SharedFor(s, h)
  }

  /** While a call is about to ask, or is busy, no other call is busy for the hash, and nothing is recorded. */
  lemma OnlyOneBusy(s: State, t: nat, u: nat)
    requires Inv(s) && t < |s.threads| && u < |s.threads| && t != u && s.threads[u].hash == s.threads[t].hash
    requires s.threads[t].pc.Requesting? || IsBusy(s.threads[t].pc)
    ensures !IsBusy(s.threads[u].pc) && s.threads[t].hash !in s.results
  {
    assert ThreadInv(s, t) && ThreadInv(s, u);
  }

  lemma AskerAlone(s: State, t: nat)
    requires Inv(s) && t < |s.threads| && (s.threads[t].pc.Requesting? || IsBusy(s.threads[t].pc))
    ensures s.threads[t].hash !in s.results
  {
    assert ThreadInv(s, t);
  }

  lemma BusyAfter(s: State, t: nat, c: Choice, h: Hash)
    requires Inv(s) && t < |s.threads| && Step(s, t, c).Some?
    ensures var s' := Step(s, t, c).value;
      && (h != s.threads[t].hash ==> (Busy(s', h) <==> Busy(s, h)))
      && (h == s.threads[t].hash && (s.threads[t].pc.Requesting? || IsBusy(s.threads[t].pc)) ==>
            (Busy(s', h) <==> IsBusy(s'.threads[t].pc)))
      && (h == s.threads[t].hash && !IsBusy(s.threads[t].pc) && !IsBusy(s'.threads[t].pc) ==>
            (Busy(s', h) <==> Busy(s, h)))
  {
    assert ThreadInv(s, t);
    StepEffect(s, t, c);
    hide Step, IsBusy, Inv;
    var s' := Step(s, t, c).value;
    forall u: nat | u < |s.threads| && u != t && s.threads[u].hash == s.threads[t].hash
        && (s.threads[t].pc.Requesting? || IsBusy(s.threads[t].pc))
      ensures !IsBusy(s.threads[u].pc)
    {
      OnlyOneBusy(s, t, u);
    }
    if Busy(s, h) {
      var u: nat :| u < |s.threads| && s.threads[u].hash == h && IsBusy(s.threads[u].pc);
      assert u != t ==> s'.threads[u] == s.threads[u];
    }
    if Busy(s', h) {
      var u: nat :| u < |s'.threads| && s'.threads[u].hash == h && IsBusy(s'.threads[u].pc);
      assert u != t ==> s'.threads[u] == s.threads[u];
    }
    if IsBusy(s'.threads[t].pc) {
      assert Busy(s', s.threads[t].hash);
    }
  }

  lemma CountsAfter(s: State, t: nat, c: Choice, h: Hash)
    requires t < |s.threads| && Step(s, t, c).Some?
    ensures
      var s', pc := Step(s, t, c).value, s.threads[t].pc;
      && multiset(s'.log)[Asked(h)] ==
           multiset(s.log)[Asked(h)] + (if pc.Requesting? && h == s.threads[t].hash then 1 else 0)
      && multiset(s'.log)[Replied(h, Failed)] ==
           multiset(s.log)[Replied(h, Failed)]
             + (if pc.Sent? && c.answer.Failed? && h == s.threads[t].hash then 1 else 0)
  {
  }

  lemma StepSharesFor(s: State, t: nat, c: Choice, h: Hash)
    requires Inv(s) && SharedFor(s, h) && t < |s.threads| && Step(s, t, c).Some?
    ensures SharedFor(Step(s, t, c).value, h)
  {
    BusyAfter(s, t, c, h);
    CountsAfter(s, t, c, h);
    if s.threads[t].pc.Requesting? || IsBusy(s.threads[t].pc) {
      AskerAlone(s, t);
      if s.threads[t].pc.Requesting? && h == s.threads[t].hash {
        NobodyBusy(s, t);
      }
    }
    ResultsAfter(s, t, c, h);
    BusyNext(s, t, c);
    BusyIsBusy(s, t);
    hide Step, Inv, Busy;
  }

  lemma NobodyBusy(s: State, t: nat)
    requires Inv(s) && t < |s.threads| && s.threads[t].pc.Requesting?
    ensures !Busy(s, s.threads[t].hash)
  {
    forall u: nat | u < |s.threads| && s.threads[u].hash == s.threads[t].hash
      ensures !IsBusy(s.threads[u].pc)
    {
      if u != t {
        OnlyOneBusy(s, t, u);
      }
    }
  }

  lemma StepShares(s: State, t: nat, c: Choice)
    requires Inv(s) && AllShared(s) && t < |s.threads| && Step(s, t, c).Some?
    ensures AllShared(Step(s, t, c).value)
  {
    hide Step, Inv, SharedFor;
    forall h
      ensures SharedFor(Step(s, t, c).value, h)
    {
      StepSharesFor(s, t, c, h);
    }
  }

  lemma BusyNext(s: State, t: nat, c: Choice)
    requires t < |s.threads| && Step(s, t, c).Some?
    ensures
      var pc := s.threads[t].pc;
      IsBusy(Step(s, t, c).value.threads[t].pc) <==>
        pc.Requesting? || (pc.Sent? && !c.answer.Failed?) || ((pc.Answered? || pc.Deleting?) && !pc.a.Failed?)
  {
  }

  lemma BusyIsBusy(s: State, t: nat)
    requires t < |s.threads|
    ensures IsBusy(s.threads[t].pc) ==> Busy(s, s.threads[t].hash)
  {
  }

  lemma ResultsAfter(s: State, t: nat, c: Choice, h: Hash)
    requires t < |s.threads| && Step(s, t, c).Some?
    ensures var s', pc := Step(s, t, c).value, s.threads[t].pc;
      h in s'.results <==> h in s.results || (pc.Recording? && !pc.a.Failed? && h == s.threads[t].hash)
  {
  }

  lemma {:induction false} RunShares(s: State, schedule: seq<Turn>)
    requires Inv(s) && AllShared(s)
    ensures AllShared(Run(s, schedule))
    decreases |schedule|
  {
    hide Step, Inv, AllShared;
    if schedule != [] {
      var turn := schedule[0];
      if turn.thread < |s.threads| && Step(s, turn.thread, turn.choice).Some? {
        StepInv(s, turn.thread, turn.choice);
        StepShares(s, turn.thread, turn.choice);
        RunShares(Step(s, turn.thread, turn.choice).value, schedule[1..]);
      } else {
        RunShares(s, schedule[1..]);
      }
    }
  }

  /**
   However many calls ask for a hash and however they run, they share requests: one
   more is sent only after one failed.
   */
  lemma RequestsAreShared(hashes: seq<Hash>, schedule: seq<Turn>, h: Hash)
    ensures var log := Run(Init(hashes), schedule).log;
      multiset(log)[Asked(h)] <= multiset(log)[Replied(h, Failed)] + 1
  {
    InitInv(hashes);
    assert AllShared(Init(hashes));
    RunShares(Init(hashes), schedule);
    assert SharedFor(Run(Init(hashes), schedule), h);
  }

  // ---- progress ------------------------------------------------------------------------

  /** Thread t can go on whatever the response, without being cancelled. */
  ghost predicate CanRun(s: State, t: nat)
  {
    t < |s.threads| && forall a :: Step(s, t, Choice(a, false)).Some?
  }

  lemma OwnerCanRun(s: State, t: nat)
    requires Inv(s) && t < |s.threads| && !s.threads[t].pc.Done? && (s.mu.None? || s.mu == Some(t))
    requires s.threads[t].pc.Waiting? ==> s.threads[t].pc.ch in s.closed
    ensures CanRun(s, t)
  {
    assert ThreadInv(s, t);
  }

  /** No lost wakeup and no deadlock: as long as some call has not returned, some call can go on. */
  lemma SomeoneCanRun(s: State, t: nat)
    requires Inv(s) && t < |s.threads| && !s.threads[t].pc.Done?
    ensures exists u: nat :: CanRun(s, u) && u < |s.threads| && (u == t || !s.threads[u].pc.Start?)
  {
    if s.mu.Some? {
      assert ThreadInv(s, s.mu.value);
      OwnerCanRun(s, s.mu.value);
    } else if s.threads[t].pc.Waiting? && s.threads[t].pc.ch !in s.closed {
      assert ThreadInv(s, t);
      var u :| 0 <= u < |s.threads| && OwnedChan(s.threads[u].pc) == Some(s.threads[t].pc.ch);
      OwnerCanRun(s, u);
    } else {
      OwnerCanRun(s, t);
    }
  }

  /** Steps a call still has ahead of it at most. */
  function Rank(pc: Pc): nat
  {
    match pc
    case Start => 11
    case Locked => 10
    case HitUnlock(_) => 1
    case WaitUnlock(_) => 5
    case OwnUnlock(_) => 9
    case Waiting(_) => 4
    case Woken => 3
    case WokenLocked => 2
    case WokenUnlock(_) => 1
    case Requesting(_) => 8
    case Sent(_) => 7
    case Answered(_, _) => 6
    case Deleting(_, _) => 5
    case Recording(_, _) => 4
    case Closing(_, _) => 3
    case FinishUnlock(_) => 2
    case Done(_) => 0
  }

  function Work(threads: seq<Thread>): nat
  {
    if threads == [] then 0 else Rank(threads[0].pc) + Work(threads[1..])
  }

  lemma {:induction false} WorkUpdate(threads: seq<Thread>, t: nat, x: Thread)
    requires t < |threads| && Rank(x.pc) < Rank(threads[t].pc)
    ensures Work(threads[t := x]) < Work(threads)
  {
    if t == 0 {
      assert threads[t := x][1..] == threads[1..];
    } else {
      WorkUpdate(threads[1..], t - 1, x);
      assert threads[t := x][1..] == threads[1..][t - 1 := x];
    }
  }

  /** Every step brings some call closer to returning, so no schedule keeps the calls busy forever. */
  lemma StepsRunOut(s: State, t: nat, c: Choice)
    requires t < |s.threads| && Step(s, t, c).Some?
    ensures Work(Step(s, t, c).value.threads) < Work(s.threads)
  {
    var s' := Step(s, t, c).value;
    WorkUpdate(s.threads, t, s'.threads[t]);
  }

  // ---- calls for different hashes -------------------------------------------------------

  ghost predicate DistinctHashes(s: State)
  {
    forall t, u :: 0 <= t < |s.threads| && 0 <= u < |s.threads| && t != u ==> s.threads[t].hash != s.threads[u].hash
  }

  /** A report of absence without an error that a 404 stands behind. */
  ghost predicate AbsenceIsAnswered(s: State, t: nat)
  {
    t < |s.threads| && s.threads[t].pc == Done(Ok(false)) ==> Replied(s.threads[t].hash, NotFound) in s.log
  }

  /** A call that never waits for another one and never takes over another one's failure. */
  ghost predicate Undisturbed(s: State, t: nat)
    requires t < |s.threads|
  {
    var h, pc := s.threads[t].hash, s.threads[t].pc;
    && !pc.WaitUnlock? && !pc.Waiting? && !pc.Woken? && !pc.WokenLocked? && !pc.WokenUnlock?
    && (pc == HitUnlock(false) || pc == Done(Ok(false)) ==> Replied(h, NotFound) in s.log)
  }

  ghost predicate AllUndisturbed(s: State)
  {
    forall t :: 0 <= t < |s.threads| ==> Undisturbed(s, t)
  }

  /** With distinct hashes, nobody else's request for the hash is in flight. */
  lemma NothingInFlight(s: State, t: nat)
    requires Inv(s) && DistinctHashes(s) && t < |s.threads| && s.threads[t].pc.Locked?
    ensures s.threads[t].hash !in s.inflight
  {
    assert s.threads[t].hash in s.inflight ==> EntryOwned(s, s.threads[t].hash);
  }

  lemma MoverUndisturbed(s: State, t: nat, c: Choice)
    requires Inv(s) && DistinctHashes(s) && t < |s.threads| && Undisturbed(s, t) && Step(s, t, c).Some?
    ensures Undisturbed(Step(s, t, c).value, t)
  {
    assert ThreadInv(s, t);
    if s.threads[t].pc.Locked? {
      NothingInFlight(s, t);
    }
    hide Inv, ThreadInv, DistinctHashes;
  }

  lemma StepUndisturbed(s: State, t: nat, c: Choice)
    requires Inv(s) && DistinctHashes(s) && AllUndisturbed(s) && t < |s.threads| && Step(s, t, c).Some?
    ensures DistinctHashes(Step(s, t, c).value) && AllUndisturbed(Step(s, t, c).value)
  {
    var s' := Step(s, t, c).value;
    assert ThreadInv(s, t);
    StepEffect(s, t, c);
    assert forall u :: 0 <= u < |s.threads| ==> s'.threads[u].hash == s.threads[u].hash;
    forall u | 0 <= u < |s'.threads|
      ensures Undisturbed(s', u)
    {
      assert Undisturbed(s, u);
      if u == t {
        MoverUndisturbed(s, t, c);
      }
    }
  }

  lemma {:induction false} RunUndisturbed(s: State, schedule: seq<Turn>)
    requires Inv(s) && DistinctHashes(s) && AllUndisturbed(s)
    ensures AllUndisturbed(Run(s, schedule))
    decreases |schedule|
  {
    if schedule != [] {
      var turn := schedule[0];
      if turn.thread < |s.threads| && Step(s, turn.thread, turn.choice).Some? {
        StepInv(s, turn.thread, turn.choice);
        StepUndisturbed(s, turn.thread, turn.choice);
        RunUndisturbed(Step(s, turn.thread, turn.choice).value, schedule[1..]);
      } else {
        RunUndisturbed(s, schedule[1..]);
      }
    }
  }

  // ---- calls that all succeed -------------------------------------------------------------

  /** A call that has got a failed answer, up to the error it returns. */
  predicate CarriesFailure(pc: Pc)
  {
    || pc == Done(Err)
    || ((pc.Answered? || pc.Deleting? || pc.Recording? || pc.Closing? || pc.FinishUnlock?) && pc.a.Failed?)
  }

  ghost predicate FailureCarried(s: State, h: Hash)
  {
    exists t: nat :: t < |s.threads| && s.threads[t].hash == h && CarriesFailure(s.threads[t].pc)
  }

  /** No failed request goes unnoticed: the call that sent it carries its error. */
  ghost predicate FailuresCarried(s: State)
  {
    forall h :: Replied(h, Failed) in s.log ==> FailureCarried(s, h)
  }

  lemma StepFailures(s: State, t: nat, c: Choice)
    requires FailuresCarried(s) && t < |s.threads| && Step(s, t, c).Some?
    ensures FailuresCarried(Step(s, t, c).value)
  {
    var s', h := Step(s, t, c).value, s.threads[t].hash;
    assert CarriesFailure(s.threads[t].pc) ==> CarriesFailure(s'.threads[t].pc);
    forall k | Replied(k, Failed) in s'.log
      ensures FailureCarried(s', k)
    {
      if Replied(k, Failed) in s.log {
        var u: nat :| u < |s.threads| && s.threads[u].hash == k && CarriesFailure(s.threads[u].pc);
        assert CarriesFailure(s'.threads[u].pc);
      } else {
        assert k == h && CarriesFailure(s'.threads[t].pc);
      }
    }
  }

  lemma {:induction false} RunFailures(s: State, schedule: seq<Turn>)
    requires FailuresCarried(s)
    ensures FailuresCarried(Run(s, schedule))
    decreases |schedule|
  {
    hide Step, FailuresCarried;
    if schedule != [] {
      var turn := schedule[0];
      if turn.thread < |s.threads| && Step(s, turn.thread, turn.choice).Some? {
        StepFailures(s, turn.thread, turn.choice);
        RunFailures(Step(s, turn.thread, turn.choice).value, schedule[1..]);
      } else {
        RunFailures(s, schedule[1..]);
      }
    }
  }

  /** Every call has returned without an error. */
  predicate AllSucceeded(s: State)
  {
    forall t: nat :: t < |s.threads| ==> s.threads[t].pc.Done? && s.threads[t].pc.r.Ok?
  }

  lemma SucceededIsAnswered(s: State, t: nat)
    requires Inv(s) && FailuresCarried(s) && AllSucceeded(s) && t < |s.threads|
    ensures Replied(s.threads[t].hash, if s.threads[t].pc.r.exists_ then Found else NotFound) in s.log
  {
    assert ThreadInv(s, t);
    assert !FailureCarried(s, s.threads[t].hash);
  }

  /**
   If every call returns without an error, no request failed, and each answer, present
   or absent, has its 200 or 404 behind it, however often a hash is asked for.
   */
  lemma SuccessIsAnswered(hashes: seq<Hash>, schedule: seq<Turn>)
    requires AllSucceeded(Run(Init(hashes), schedule))
    ensures var s := Run(Init(hashes), schedule);
      && (forall h :: Replied(h, Failed) !in s.log)
      && (forall t: nat :: t < |s.threads| ==>
            Replied(s.threads[t].hash, if s.threads[t].pc.r.exists_ then Found else NotFound) in s.log)
  {
    var s := Run(Init(hashes), schedule);
    InitInv(hashes);
    RunInv(Init(hashes), schedule);
    RunFailures(Init(hashes), schedule);
    hide Run, Init, Inv;
    forall t: nat | t < |s.threads|
      ensures Replied(s.threads[t].hash, if s.threads[t].pc.r.exists_ then Found else NotFound) in s.log
    {
      SucceededIsAnswered(s, t);
    }
    assert forall h :: !FailureCarried(s, h);
  }

  // ---- a failure seen by those who wait -----------------------------------------------

  lemma {:induction false} Extend(s: State, schedule: seq<Turn>, turn: Turn)
    requires turn.thread < |s.threads| && Step(Run(s, schedule), turn.thread, turn.choice).Some?
    ensures Run(s, schedule + [turn]) == Step(Run(s, schedule), turn.thread, turn.choice).value
    decreases |schedule|
  {
    if schedule == [] {
      assert [] + [turn] == [turn] && [turn][1..] == [];
    } else {
      var first := schedule[0];
      var next := if first.thread < |s.threads| && Step(s, first.thread, first.choice).Some?
                  then Step(s, first.thread, first.choice).value else s;
      assert (schedule + [turn])[0] == first && (schedule + [turn])[1..] == schedule[1..] + [turn];
      Extend(next, schedule[1..], turn);
    }
  }

  /** Two calls for one hash among any others, which have not begun. */
  datatype Pair = Pair(hashes: seq<Hash>, first: nat, second: nat)

  predicate IsPair(k: Pair)
  {
    && k.first < |k.hashes| && k.second < |k.hashes| && k.first != k.second
    && k.hashes[k.first] == k.hashes[k.second]
  }

  function HashOf(k: Pair): Hash
    requires IsPair(k)
  {
    k.hashes[k.first]
  }

  /** What the calls share, as long as nothing is recorded. */
  datatype Shared = Shared(mu: Option<nat>, inflight: map<Hash, Chan>, chans: seq<Hash>, closed: set<Chan>,
    log: seq<Event>)

  /** The state in which the two calls stand at a and b. */
  function Two(k: Pair, sh: Shared, a: Pc, b: Pc): State
    requires IsPair(k)
  {
    State(sh.mu, map[], sh.inflight, sh.chans, sh.closed,
          Init(k.hashes).threads[k.first := Thread(HashOf(k), a)][k.second := Thread(HashOf(k), b)], sh.log, false)
  }

  /** What a step of thread t from pc to pc' does to the shared part. */
  function After(sh: Shared, t: nat, h: Hash, pc: Pc, pc': Pc): Shared
  {
    Shared(
      if Holds(pc') then Some(t) else if Holds(pc) then None else sh.mu,
      if pc'.OwnUnlock? then sh.inflight[h := pc'.ch] else if pc.Deleting? then sh.inflight - {h} else sh.inflight,
      if pc'.OwnUnlock? then sh.chans + [h] else sh.chans,
      if pc.Closing? then sh.closed + {pc.ch} else sh.closed,
      if pc.Requesting? then sh.log + [Asked(h)] else if pc'.Answered? then sh.log + [Replied(h, pc'.a)] else sh.log)
  }

  const FAILS: Choice := Choice(Failed, false)

  /** A step that neither records a result nor closes a channel again. */
  predicate Simple(sh: Shared, pc: Pc)
  {
    (pc.Recording? ==> pc.a.Failed?) && (pc.Closing? ==> pc.ch !in sh.closed)
  }

  /** The first of the two calls takes a step. */
  lemma FirstMoves(k: Pair, x: seq<Turn>, sh: Shared, a: Pc, b: Pc, a': Pc) returns (longer: seq<Turn>)
    requires IsPair(k) && Run(Init(k.hashes), x) == Two(k, sh, a, b) && Simple(sh, a)
    requires NextPc(Two(k, sh, a, b), HashOf(k), a, FAILS) == Some(a')
    ensures Run(Init(k.hashes), longer) == Two(k, After(sh, k.first, HashOf(k), a, a'), a', b)
  {
    hide Run;
    longer := x + [Turn(k.first, FAILS)];
    var s := Two(k, sh, a, b);
    assert s.threads[k.first] == Thread(HashOf(k), a);
    Extend(Init(k.hashes), x, Turn(k.first, FAILS));
    var s' := Two(k, After(sh, k.first, HashOf(k), a, a'), a', b);
    assert s.threads[k.first := Thread(HashOf(k), a')] == s'.threads;
  }

  /** The second of the two calls takes a step. */
  lemma SecondMoves(k: Pair, x: seq<Turn>, sh: Shared, a: Pc, b: Pc, b': Pc) returns (longer: seq<Turn>)
    requires IsPair(k) && Run(Init(k.hashes), x) == Two(k, sh, a, b) && Simple(sh, b)
    requires NextPc(Two(k, sh, a, b), HashOf(k), b, FAILS) == Some(b')
    ensures Run(Init(k.hashes), longer) == Two(k, After(sh, k.second, HashOf(k), b, b'), a, b')
  {
    hide Run;
    longer := x + [Turn(k.second, FAILS)];
    var s := Two(k, sh, a, b);
    assert s.threads[k.second] == Thread(HashOf(k), b);
    Extend(Init(k.hashes), x, Turn(k.second, FAILS));
    var s' := Two(k, After(sh, k.second, HashOf(k), b, b'), a, b');
    assert s.threads[k.second := Thread(HashOf(k), b')] == s'.threads;
  }

  function Entry(h: Hash): map<Hash, Chan>
  {
    map[h := 0]
  }

  lemma NothingStarted(k: Pair)
    requires IsPair(k)
    ensures Run(Init(k.hashes), []) == Two(k, Shared(None, map[], [], {}, []), Start, Start)
  {
    assert Init(k.hashes).threads == Two(k, Shared(None, map[], [], {}, []), Start, Start).threads;
  }

  /** The first call registers its request. */
  lemma FirstCallUnderWay(k: Pair) returns (x: seq<Turn>)
    requires IsPair(k)
    ensures Run(Init(k.hashes), x) == Two(k, Shared(None, Entry(HashOf(k)), [HashOf(k)], {}, []), Requesting(0), Start)
  {
    var h, sh := HashOf(k), Shared(None, map[], [], {}, []);
    hide Run, Init;
    NothingStarted(k);
    x := FirstMoves(k, [], sh, Start, Start, Locked);
    sh := sh.(mu := Some(k.first));
    x := FirstMoves(k, x, sh, Locked, Start, OwnUnlock(0));
    sh := Shared(Some(k.first), Entry(h), [h], {}, []);
    x := FirstMoves(k, x, sh, OwnUnlock(0), Start, Requesting(0));
  }

  /** The second finds it and waits. */
  lemma BothCallsUnderWay(k: Pair) returns (x: seq<Turn>)
    requires IsPair(k)
    ensures Run(Init(k.hashes), x) == Two(k, Shared(None, Entry(HashOf(k)), [HashOf(k)], {}, []), Requesting(0),
      Waiting(0))
  {
    hide Run, Init;
    var sh := Shared(None, Entry(HashOf(k)), [HashOf(k)], {}, []);
    x := FirstCallUnderWay(k);
    x := SecondMoves(k, x, sh, Requesting(0), Start, Locked);
    sh := sh.(mu := Some(k.second));
    x := SecondMoves(k, x, sh, Requesting(0), Locked, WaitUnlock(0));
    x := SecondMoves(k, x, sh, Requesting(0), WaitUnlock(0), Waiting(0));
  }

  function Failure(h: Hash): seq<Event>
  {
    [Asked(h), Replied(h, Failed)]
  }

  /** The request fails. */
  lemma RequestFails(k: Pair) returns (x: seq<Turn>)
    requires IsPair(k)
    ensures Run(Init(k.hashes), x) ==
            Two(k, Shared(None, Entry(HashOf(k)), [HashOf(k)], {}, Failure(HashOf(k))), Answered(0, Failed), Waiting(0))
  {
    hide Run, Init, Entry, Two;
    var h, w := HashOf(k), Waiting(0);
    var sh := Shared(None, Entry(h), [h], {}, []);
    x := BothCallsUnderWay(k);
    x := FirstMoves(k, x, sh, Requesting(0), w, Sent(0));
    assert [] + [Asked(h)] == [Asked(h)];
    sh := sh.(log := [Asked(h)]);
    x := FirstMoves(k, x, sh, Sent(0), w, Answered(0, Failed));
    assert [Asked(h)] + [Replied(h, Failed)] == Failure(h);
  }

  /** The first call takes its entry out. */
  lemma EntryIsDeleted(k: Pair) returns (x: seq<Turn>)
    requires IsPair(k)
    ensures Run(Init(k.hashes), x) ==
            Two(k, Shared(Some(k.first), map[], [HashOf(k)], {}, Failure(HashOf(k))), Recording(0, Failed), Waiting(0))
  {
    hide Run, Init, Failure;
    var h, w := HashOf(k), Waiting(0);
    var sh := Shared(None, Entry(h), [h], {}, Failure(h));
    x := RequestFails(k);
    x := FirstMoves(k, x, sh, Answered(0, Failed), w, Deleting(0, Failed));
    sh := sh.(mu := Some(k.first));
    x := FirstMoves(k, x, sh, Deleting(0, Failed), w, Recording(0, Failed));
    assert Entry(h) - {h} == map[];
  }

  /** The first call returns the error. */
  lemma FirstCallFails(k: Pair) returns (x: seq<Turn>)
    requires IsPair(k)
    ensures Run(Init(k.hashes), x) ==
            Two(k, Shared(None, map[], [HashOf(k)], {0}, Failure(HashOf(k))), Done(Err), Waiting(0))
  {
    hide Run, Init;
    var h, w := HashOf(k), Waiting(0);
    var sh := Shared(Some(k.first), map[], [h], {}, Failure(h));
    x := EntryIsDeleted(k);
    x := FirstMoves(k, x, sh, Recording(0, Failed), w, Closing(0, Failed));
    x := FirstMoves(k, x, sh, Closing(0, Failed), w, FinishUnlock(Failed));
    sh := sh.(closed := {0});
    x := FirstMoves(k, x, sh, FinishUnlock(Failed), w, Done(Err));
  }

  /** The second wakes up, finds no result, and returns false without an error. */
  lemma SecondCallReportsAbsence(k: Pair) returns (x: seq<Turn>)
    requires IsPair(k)
    ensures Run(Init(k.hashes), x) ==
            Two(k, Shared(None, map[], [HashOf(k)], {0}, Failure(HashOf(k))), Done(Err), Done(Ok(false)))
  {
    hide Run, Init;
    var sh := Shared(None, map[], [HashOf(k)], {0}, Failure(HashOf(k)));
    var e := Done(Err);
    x := FirstCallFails(k);
    x := SecondMoves(k, x, sh, e, Waiting(0), Woken);
    x := SecondMoves(k, x, sh, e, Woken, WokenLocked);
    sh := sh.(mu := Some(k.second));
    x := SecondMoves(k, x, sh, e, WokenLocked, WokenUnlock(false));
    x := SecondMoves(k, x, sh, e, WokenUnlock(false), Done(Ok(false)));
  }

  /**
   Two calls for one hash, among any others: when the request of the one fails, the
   other, which waited for it, reports the path absent although no 404 was received.
   */
  lemma WaiterReportsAbsentAfterFailure(hashes: seq<Hash>, i: nat, j: nat)
    requires i < |hashes| && j < |hashes| && i != j && hashes[i] == hashes[j]
    ensures exists schedule :: var s := Run(Init(hashes), schedule);
      s.threads[i].pc == Done(Err) && s.threads[j].pc == Done(Ok(false)) && !AbsenceIsAnswered(s, j)
  {
    var x := SecondCallReportsAbsence(Pair(hashes, i, j));
    hide Run;
    assert !AbsenceIsAnswered(Run(Init(hashes), x), j);
  }

  /**
   Whatever the schedule, every call that reports a path absent was answered 404 for
   it, if and only if no two of the calls are for the same hash.
   */
  lemma AbsenceIsAnsweredIff(hashes: seq<Hash>)
    ensures (forall schedule, t: nat :: AbsenceIsAnswered(Run(Init(hashes), schedule), t)) <==> NoDup(hashes)
  {
    if NoDup(hashes) {
      forall schedule, t: nat
        ensures AbsenceIsAnswered(Run(Init(hashes), schedule), t)
      {
        InitInv(hashes);
        RunUndisturbed(Init(hashes), schedule);
        assert t < |hashes| ==> Undisturbed(Run(Init(hashes), schedule), t);
      }
    } else {
      var i, j :| 0 <= i < j < |hashes| && hashes[i] == hashes[j];
      WaiterReportsAbsentAfterFailure(hashes, i, j);
      var x :| !AbsenceIsAnswered(Run(Init(hashes), x), j);
    }
  }
}
