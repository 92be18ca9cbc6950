/**
 The connect coalescer on JavaScript's job queue.  A settled promise queues the
 code behind each `await` of it, an await of a settled promise queues its own,
 and `Promise.resolve().then(…)` queues the start of an operation; jobs run
 first in, first out.  Requests arrive and connects settle at any time.
 */
module ConnectJobQueue {
  import opened Results
  import C = ConnectCoalescer

  datatype Job = Resume(caller: nat) | Connect(op: nat)

  datatype State = State(core: C.State, jobs: seq<Job>)

  /** `order` is the order in which the awaits of the settled operation were made: whichever it was. */
  datatype Event = Request | RunJob | ConnectSettles(op: nat, outcome: C.Outcome, order: seq<nat>)

  function Init(): State {
    State(C.Init(), [])
  }

  /** The caller awaits operation `o`, its own or another's. */
  predicate Waits(core: C.State, c: nat, o: nat) {
    c < |core.callers| && (core.callers[c].pc == C.Awaiting(o) || core.callers[c].pc == C.Owning(o))
  }

  ghost predicate ListsWaiters(order: seq<nat>, core: C.State, o: nat) {
    && (forall c :: c in order <==> Waits(core, c, o))
    && forall i, j | 0 <= i < j < |order| :: order[i] != order[j]
  }

  /** A connect settles after the job that started it. */
  ghost predicate Enabled(q: State, e: Event) {
    match e
    case Request => true
    case RunJob => q.jobs != []
    case ConnectSettles(o, outcome, order) =>
      C.Enabled(q.core, C.Settle(o, outcome)) && Connect(o) !in q.jobs && ListsWaiters(order, q.core, o)
  }

  /** What the segment that left caller `c` at its await has queued. */
  function Due(core: C.State, c: nat): seq<Job>
    requires c < |core.callers|
  {
    match core.callers[c].pc
    case Owning(o) => [Connect(o)]
    case Awaiting(o) => if o < |core.ops| && core.ops[o].Settled? then [Resume(c)] else []
    case _ => []
  }

  function Resumes(order: seq<nat>): (jobs: seq<Job>)
    ensures |jobs| == |order| && forall i | 0 <= i < |jobs| :: jobs[i] == Resume(order[i])
  {
    seq(|order|, i requires 0 <= i < |order| => Resume(order[i]))
  }

  function Step(q: State, e: Event): State
    requires e.RunJob? ==> q.jobs != []
    requires e.ConnectSettles? ==> C.Enabled(q.core, C.Settle(e.op, e.outcome))
  {
    match e
    case Request =>
      var core := C.Step(q.core, C.Call);
      State(core, q.jobs + Due(core, |q.core.callers|))
    case ConnectSettles(o, outcome, order) => State(C.Step(q.core, C.Settle(o, outcome)), q.jobs + Resumes(order))
    case RunJob =>
      match q.jobs[0]
      case Connect(_) => State(q.core, q.jobs[1..])
      case Resume(c) =>
        if !C.Enabled(q.core, C.Wake(c)) then State(q.core, q.jobs[1..])
        else
          var core := C.Step(q.core, C.Wake(c));
          State(core, q.jobs[1..] + Due(core, c))
  }

  // ------------------------------------------------------------- invariant

  /** The queue holds exactly the callers that can resume, each once, and operations not yet started. */
  ghost predicate Queued(q: State) {
    && (forall c: nat :: Resume(c) in q.jobs <==> C.Enabled(q.core, C.Wake(c)))
    && (forall o: nat | Connect(o) in q.jobs :: IsRunning(q.core, o))
    && forall i, j | 0 <= i < j < |q.jobs| :: q.jobs[i] != q.jobs[j]
  }

  ghost predicate AwaitsOther(core: C.State, job: Job) {
    job.Resume? && job.caller < |core.callers| && core.callers[job.caller].pc.Awaiting?
  }

  /** Whoever still has to hear of an operation that settled is queued before the start of a newer one. */
  ghost predicate HeardFirst(q: State) {
    forall i, o: nat | 0 <= i < |q.jobs| && AwaitsOther(q.core, q.jobs[i]) && IsRunning(q.core, o) ::
      Connect(o) in q.jobs[i..]
  }

  predicate IsRunning(core: C.State, o: nat) {
    o < |core.ops| && core.ops[o].Running?
  }

  ghost predicate Inv(q: State) {
    C.Inv(q.core) && Queued(q) && HeardFirst(q)
  }

  /** Every step of the queue is one of the coalescer's, or none. */
  ghost predicate Refines(core: C.State, core': C.State) {
    core' == core || exists e :: C.Enabled(core, e) && core' == C.Step(core, e)
  }

  lemma StepRefines(q: State, e: Event)
    requires Enabled(q, e)
    ensures Refines(q.core, Step(q, e).core)
  {
    match e
    case Request => assert C.Enabled(q.core, C.Call);
    case ConnectSettles(o, outcome, _) => assert C.Enabled(q.core, C.Settle(o, outcome));
    case RunJob =>
      if q.jobs[0].Resume? && C.Enabled(q.core, C.Wake(q.jobs[0].caller)) {
        assert Step(q, e).core == C.Step(q.core, C.Wake(q.jobs[0].caller));
      }
  }

  /** Jobs run first in, first out: a turn takes the first, and what it queues comes after all others. */
  lemma ServedInOrder(q: State, e: Event)
    requires Enabled(q, e)
    ensures (if e.RunJob? then q.jobs[1..] else q.jobs) <= Step(q, e).jobs
    ensures e.RunJob? ==> |Step(q, e).jobs| <= |q.jobs|
  {
  }

  // Job lists: what is in them, and what stays ahead of what.

  lemma ResumesExactly(order: seq<nat>, c: nat)
    ensures Resume(c) in Resumes(order) <==> c in order
    ensures forall o: nat :: Connect(o) !in Resumes(order)
  {
    if c in order {
      var i :| 0 <= i < |order| && order[i] == c;
      assert Resumes(order)[i] == Resume(c);
    }
  }

  /** The queue without its first job, taken as run. */
  lemma TailIsHeardFirst(q: State)
    requires q.jobs != [] && HeardFirst(q)
    ensures HeardFirst(State(q.core, q.jobs[1..]))
  {
    forall i, o: nat | 0 <= i < |q.jobs| - 1 && AwaitsOther(q.core, q.jobs[1..][i]) && IsRunning(q.core, o)
      ensures Connect(o) in q.jobs[1..][i..]
    {
      assert q.jobs[1..][i] == q.jobs[i + 1] && q.jobs[1..][i..] == q.jobs[i + 1..];
    }
  }

  lemma InEither(jobs: seq<Job>, due: seq<Job>, i: nat)
    requires i < |jobs + due|
    ensures if i < |jobs| then (jobs + due)[i] == jobs[i] && jobs[i] in jobs else (jobs + due)[i] in due
  {
  }

  /** A segment that starts nothing newer than its own, last, job keeps everybody's place. */
  lemma AppendedIsHeardFirst(core: C.State, core': C.State, jobs: seq<Job>, due: seq<Job>)
    requires HeardFirst(State(core, jobs))
    requires forall j | j in jobs && AwaitsOther(core', j) :: AwaitsOther(core, j)
    requires forall o: nat | IsRunning(core', o) :: IsRunning(core, o) || due == [Connect(o)]
    requires (forall j | j in due :: !AwaitsOther(core', j)) || forall o: nat :: !IsRunning(core', o)
    ensures HeardFirst(State(core', jobs + due))
  {
    forall i, o: nat | 0 <= i < |jobs + due| && AwaitsOther(core', (jobs + due)[i]) && IsRunning(core', o)
      ensures Connect(o) in (jobs + due)[i..]
    {
      InEither(jobs, due, i);
      if i < |jobs| {
        assert (jobs + due)[i..] == jobs[i..] + due;
      }
    }
  }

  /** Adding jobs that are not there yet. */
  lemma AppendedIsDistinct(jobs: seq<Job>, due: seq<Job>)
    requires forall i, j | 0 <= i < j < |jobs| :: jobs[i] != jobs[j]
    requires forall i, j | 0 <= i < j < |due| :: due[i] != due[j]
    requires forall j | j in due :: j !in jobs
    ensures forall i, j | 0 <= i < j < |jobs + due| :: (jobs + due)[i] != (jobs + due)[j]
  {
    forall i, j | 0 <= i < j < |jobs + due| ensures (jobs + due)[i] != (jobs + due)[j] {
      assert j >= |jobs| ==> (jobs + due)[j] in due;
      assert i < |jobs| ==> (jobs + due)[i] in jobs;
    }
  }

  /**
   With nothing running but the active operation, an await of a settled active one has nothing ahead of it to hear.
   */
  lemma OneRuns(core: C.State, o: nat)
    requires C.Inv(core) && core.active == Some(o) && o < |core.ops| && core.ops[o].Settled?
    ensures forall p: nat :: !IsRunning(core, p)
  {
  }

  lemma RequestKeepsQueued(q: State)
    requires Inv(q)
    ensures Queued(Step(q, Request))
  {
    var n, q' := |q.core.callers|, Step(q, Request);
    var due := Due(q'.core, n);
    assert Resume(n) !in q.jobs;
    assert forall o: nat | Connect(o) in q.jobs :: o < |q.core.ops|;
    AppendedIsDistinct(q.jobs, due);
    forall c: nat ensures Resume(c) in q'.jobs <==> C.Enabled(q'.core, C.Wake(c)) {
      assert Resume(c) in q.jobs <==> C.Enabled(q.core, C.Wake(c));
    }
  }

  lemma RequestKeepsInv(q: State)
    requires Inv(q)
    ensures Inv(Step(q, Request))
  {
    C.StepKeepsInv(q.core, C.Call);
    RequestKeepsQueued(q);
    var n, q' := |q.core.callers|, Step(q, Request);
    if q'.core.callers[n].pc.Awaiting? && q'.core.ops[q'.core.callers[n].pc.op].Settled? {
      OneRuns(q'.core, q'.core.callers[n].pc.op);
    }
    AppendedIsHeardFirst(q.core, q'.core, q.jobs, Due(q'.core, n));
  }

  lemma SettlementKeepsQueued(q: State, o: nat, outcome: C.Outcome, order: seq<nat>)
    requires Inv(q) && Enabled(q, ConnectSettles(o, outcome, order))
    ensures Queued(Step(q, ConnectSettles(o, outcome, order)))
  {
    var q' := Step(q, ConnectSettles(o, outcome, order));
    forall c: nat ensures Resume(c) in q'.jobs <==> C.Enabled(q'.core, C.Wake(c)) {
      ResumesExactly(order, c);
      assert Resume(c) in q.jobs <==> C.Enabled(q.core, C.Wake(c));
      assert c in order <==> Waits(q.core, c, o);
    }
    forall p: nat ensures Connect(p) !in q'.jobs {
      ResumesExactly(order, 0);
      assert Connect(p) in q.jobs ==> IsRunning(q.core, p);
    }
    forall j | j in Resumes(order) ensures j !in q.jobs {
      var i :| 0 <= i < |order| && Resumes(order)[i] == j;
      assert order[i] in order && Waits(q.core, order[i], o);
    }
    AppendedIsDistinct(q.jobs, Resumes(order));
  }

  lemma SettlementKeepsInv(q: State, o: nat, outcome: C.Outcome, order: seq<nat>)
    requires Inv(q) && Enabled(q, ConnectSettles(o, outcome, order))
    ensures Inv(Step(q, ConnectSettles(o, outcome, order)))
  {
    C.StepKeepsInv(q.core, C.Settle(o, outcome));
    SettlementKeepsQueued(q, o, outcome, order);
    var q' := Step(q, ConnectSettles(o, outcome, order));
    forall p: nat ensures !IsRunning(q'.core, p) {
      assert IsRunning(q.core, p) ==> p == o;
    }
    AppendedIsHeardFirst(q.core, q'.core, q.jobs, Resumes(order));
  }

  lemma TailIsQueued(q: State)
    requires Queued(q) && q.jobs != []
    ensures forall j: Job :: j in q.jobs[1..] <==> j in q.jobs && j != q.jobs[0]
    ensures forall i, j | 0 <= i < j < |q.jobs[1..]| :: q.jobs[1..][i] != q.jobs[1..][j]
  {
    forall j: Job ensures j in q.jobs[1..] <==> j in q.jobs && j != q.jobs[0] {
      if j in q.jobs && j != q.jobs[0] {
        var i :| 0 <= i < |q.jobs| && q.jobs[i] == j;
        assert q.jobs[1..][i - 1] == j;
      }
    }
  }

  /** What a resumed caller can do. */
  lemma WakeOutcomes(core: C.State, c: nat)
    requires C.Inv(core) && C.Enabled(core, C.Wake(c))
    ensures var core' := C.Step(core, C.Wake(c));
            && |core'.callers| == |core.callers|
            && (forall d | 0 <= d < |core.callers| && d != c :: core'.callers[d] == core.callers[d])
            && (if core'.callers[c].pc.Owning?
                then core'.callers[c].pc.op == |core.ops| && core'.ops == core.ops + [C.Running]
                else core'.ops == core.ops)
            && !core'.callers[c].pc.Fresh?
            && (core'.callers[c].pc.Awaiting? ==>
                  core'.active == Some(core'.callers[c].pc.op) && core'.callers[c].pc.op < |core.ops|)
  {
  }

  lemma ResumeQueues(q: State, c: nat, d: nat)
    requires Inv(q) && q.jobs != [] && q.jobs[0] == Resume(c) && C.Enabled(q.core, C.Wake(c))
    ensures Resume(d) in Step(q, RunJob).jobs <==> C.Enabled(Step(q, RunJob).core, C.Wake(d))
  {
    WakeOutcomes(q.core, c);
    TailIsQueued(q);
    var q' := Step(q, RunJob);
    assert Resume(d) in q.jobs <==> C.Enabled(q.core, C.Wake(d));
    assert Resume(d) in q'.jobs <==> Resume(d) in q.jobs[1..] || Resume(d) in Due(q'.core, c);
  }

  lemma ResumeKeepsQueued(q: State, c: nat)
    requires Inv(q) && q.jobs != [] && q.jobs[0] == Resume(c)
    ensures Queued(Step(q, RunJob))
  {
    assert Resume(c) in q.jobs;
    WakeOutcomes(q.core, c);
    TailIsQueued(q);
    assert forall o: nat | Connect(o) in q.jobs :: IsRunning(q.core, o);
    AppendedIsDistinct(q.jobs[1..], Due(Step(q, RunJob).core, c));
    forall d: nat ensures Resume(d) in Step(q, RunJob).jobs <==> C.Enabled(Step(q, RunJob).core, C.Wake(d)) {
      ResumeQueues(q, c, d);
    }
  }

  lemma ResumeKeepsInv(q: State, c: nat)
    requires Inv(q) && q.jobs != [] && q.jobs[0] == Resume(c)
    ensures Inv(Step(q, RunJob))
  {
    assert Resume(c) in q.jobs;
    C.StepKeepsInv(q.core, C.Wake(c));
    ResumeKeepsQueued(q, c);
    WakeOutcomes(q.core, c);
    TailIsHeardFirst(q);
    TailIsQueued(q);
    var q' := Step(q, RunJob);
    if q'.core.callers[c].pc.Awaiting? && q'.core.ops[q'.core.callers[c].pc.op].Settled? {
      OneRuns(q'.core, q'.core.callers[c].pc.op);
    }
    AppendedIsHeardFirst(q.core, q'.core, q.jobs[1..], Due(q'.core, c));
  }

  lemma ConnectKeepsInv(q: State, o: nat)
    requires Inv(q) && q.jobs != [] && q.jobs[0] == Connect(o)
    ensures Inv(Step(q, RunJob))
  {
    TailIsHeardFirst(q);
    TailIsQueued(q);
  }

  lemma StepKeepsInv(q: State, e: Event)
    requires Inv(q) && Enabled(q, e)
    ensures Inv(Step(q, e))
  {
    match e
    case Request => RequestKeepsInv(q);
    case RunJob =>
      match q.jobs[0] {
        case Resume(c) => ResumeKeepsInv(q, c);
        case Connect(o) => ConnectKeepsInv(q, o);
      }
    case ConnectSettles(o, outcome, order) => SettlementKeepsInv(q, o, outcome, order);
  }

  // ------------------------------------------------------------------ runs

  ghost predicate Run(states: seq<State>, events: seq<Event>) {
    && |states| == |events| + 1
    && states[0] == Init()
    && forall i | 0 <= i < |events| ::
         Enabled(states[i], events[i]) && states[i + 1] == Step(states[i], events[i])
  }

  lemma {:induction false} RunKeepsInv(states: seq<State>, events: seq<Event>, i: nat)
    requires Run(states, events) && i <= |events|
    ensures Inv(states[i])
  {
    if i > 0 {
      RunKeepsInv(states, events, i - 1);
      StepKeepsInv(states[i - 1], events[i - 1]);
    }
  }

  /** Promise-job order: when an operation settles, everybody has heard of the ones that settled before. */
  lemma SettlementsArePrompt(states: seq<State>, events: seq<Event>, i: nat, c: nat)
    requires Run(states, events) && i < |events| && events[i].ConnectSettles?
    requires c < |states[i].core.callers| && states[i].core.callers[c].pc.Awaiting?
    ensures !C.Enabled(states[i].core, C.Wake(c))
  {
    RunKeepsInv(states, events, i);
    EveryoneHeard(states[i], events[i].op, c);
  }

  lemma NotQueued(q: State, o: nat, c: nat)
    requires HeardFirst(q) && IsRunning(q.core, o) && Connect(o) !in q.jobs
    ensures c < |q.core.callers| && q.core.callers[c].pc.Awaiting? ==> Resume(c) !in q.jobs
  {
    forall k | 0 <= k < |q.jobs| ensures !AwaitsOther(q.core, q.jobs[k]) {
      assert Connect(o) !in q.jobs[k..];
    }
    assert c < |q.core.callers| && q.core.callers[c].pc.Awaiting? ==> AwaitsOther(q.core, Resume(c));
  }

  lemma EveryoneHeard(q: State, o: nat, c: nat)
    requires Inv(q) && IsRunning(q.core, o) && Connect(o) !in q.jobs
    requires c < |q.core.callers| && q.core.callers[c].pc.Awaiting?
    ensures !C.Enabled(q.core, C.Wake(c))
  {
    NotQueued(q, o, c);
    assert Resume(c) !in q.jobs;
  }

  lemma StepKeepsCurrent(q: State, e: Event, c: nat)
    requires Inv(q) && Enabled(q, e) && c < |Step(q, e).core.callers|
    requires c < |q.core.callers| ==> C.Current(q.core, q.core.callers[c])
    ensures C.Current(Step(q, e).core, Step(q, e).core.callers[c])
  {
    match e
    case Request => C.ResumeKeepsCurrent(q.core, C.Call, c);
    case ConnectSettles(o, outcome, _) =>
      if q.core.callers[c].pc.Awaiting? {
        EveryoneHeard(q, o, c);
      }
      C.SettleKeepsCurrent(q.core, o, outcome, c);
    case RunJob =>
      if q.jobs[0].Resume? && C.Enabled(q.core, C.Wake(q.jobs[0].caller)) {
        C.ResumeKeepsCurrent(q.core, C.Wake(q.jobs[0].caller), c);
      }
  }

  lemma NextKeepsCurrent(states: seq<State>, events: seq<Event>, i: nat, c: nat)
    requires Run(states, events) && i < |events| && c < |states[i + 1].core.callers|
    requires c < |states[i].core.callers| ==> C.Current(states[i].core, states[i].core.callers[c])
    ensures C.Current(states[i + 1].core, states[i + 1].core.callers[c])
  {
    RunKeepsInv(states, events, i);
    StepKeepsCurrent(states[i], events[i], c);
  }

  lemma {:induction false} RunKeepsCurrent(states: seq<State>, events: seq<Event>, i: nat, c: nat)
    requires Run(states, events) && i <= |events| && c < |states[i].core.callers|
    ensures C.Current(states[i].core, states[i].core.callers[c])
  {
    if i > 0 {
      if c < |states[i - 1].core.callers| {
        RunKeepsCurrent(states, events, i - 1, c);
      }
      NextKeepsCurrent(states, events, i - 1, c);
    }
  }

  /** Event `i` makes caller `c` start its own operation. */
  ghost predicate StartsOwn(states: seq<State>, events: seq<Event>, i: nat, c: nat) {
    && Run(states, events) && i < |events|
    && c < |states[i + 1].core.callers| && states[i + 1].core.callers[c].own.Some?
    && (c < |states[i].core.callers| ==> states[i].core.callers[c].own.None?)
  }

  /**
   A success satisfies every overlapping request: whoever starts an operation
   of its own saw no success since it asked.
   */
  lemma SuccessSatisfiesOverlap(states: seq<State>, events: seq<Event>, i: nat, c: nat)
    requires StartsOwn(states, events, i, c)
    ensures C.Successes(states[i].core.ops) == states[i + 1].core.callers[c].atCall
  {
    if c < |states[i].core.callers| {
      RunKeepsCurrent(states, events, i, c);
    }
    RunKeepsInv(states, events, i);
    StepStartsCurrent(states[i], events[i], c);
  }

  lemma StepStartsCurrent(q: State, e: Event, c: nat)
    requires Inv(q) && Enabled(q, e)
    requires c < |Step(q, e).core.callers| && Step(q, e).core.callers[c].own.Some?
    requires c < |q.core.callers| ==> q.core.callers[c].own.None? && C.Current(q.core, q.core.callers[c])
    ensures C.Successes(q.core.ops) == Step(q, e).core.callers[c].atCall
  {
    if c < |q.core.callers| {
      StepRefines(q, e);
      var step :| C.Enabled(q.core, step) && Step(q, e).core == C.Step(q.core, step);
      C.StartKeepsArrival(q.core, step, c);
    }
  }

  /** With the queue empty and no connect outstanding, every caller has its answer. */
  lemma DrainedMeansAnswered(states: seq<State>, events: seq<Event>, i: nat, c: nat)
    requires Run(states, events) && i <= |events| && c < |states[i].core.callers|
    requires states[i].jobs == [] && forall o: nat :: !IsRunning(states[i].core, o)
    ensures states[i].core.callers[c].pc.Done?
  {
    RunKeepsInv(states, events, i);
    assert C.CallerOk(states[i].core, states[i].core.callers[c]);
    var pc := states[i].core.callers[c].pc;
    assert Resume(c) !in states[i].jobs;
    if pc.Awaiting? || pc.Owning? {
      assert !IsRunning(states[i].core, pc.op);
    }
  }
}
