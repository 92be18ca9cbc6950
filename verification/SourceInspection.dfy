/**
 One level below `WorkerPool`: an inspection awaits two git reads of its
 checkpoint at once.  The first of them to fail ends the inspection, and with
 it its worker, while the other read may still be running.
 */
module SourceInspection {
  import opened Results
  import P = WorkerPool

  datatype Read = Unstarted | Running | Done(ok: bool)

  /** The two reads of one inspection, and the worker whose inspection it is. */
  datatype Reads = Reads(worker: nat, commit: Read, branch: Read)

  datatype Which = Commit | Branch

  datatype State<R, E> = State(pool: P.State<R, E>, git: seq<Reads>)

  /** `Ends` is an inspection that ends before its reads begin or after both succeeded. */
  datatype Event<R, E> =
    | Start(worker: nat)
    | ReadsBegin(worker: nat)
    | ReadSettles(item: nat, which: Which, failure: Option<E>)
    | Ends(worker: nat, outcome: P.Outcome<R, E>)
    | Finish

  function Get(r: Reads, which: Which): Read {
    if which.Commit? then r.commit else r.branch
  }

  function Twin(which: Which): Which {
    if which.Commit? then Branch else Commit
  }

  function Set(r: Reads, which: Which, read: Read): Reads {
    if which.Commit? then r.(commit := read) else r.(branch := read)
  }

  function Initial<R, E>(count: nat): State<R, E> {
    State(P.Initial(P.INSPECTOR, count), seq(count, _ => Reads(0, Unstarted, Unstarted)))
  }

  predicate WorksOn<R, E>(s: State<R, E>, w: nat, i: nat) {
    w < |s.pool.workers| && s.pool.workers[w] == P.Working(i)
  }

  /** The worker, if any, whose inspection is under way. */
  function ItemOf<R, E>(s: State<R, E>, w: nat): Option<nat> {
    if w < |s.pool.workers| && s.pool.workers[w].Working? && s.pool.workers[w].index < |s.git| then
      Some(s.pool.workers[w].index)
    else None
  }

  predicate Enabled<R, E>(s: State<R, E>, e: Event<R, E>) {
    match e
    case Start(w) => P.Enabled(s.pool, P.Start(w))
    case ReadsBegin(w) =>
      ItemOf(s, w).Some? && s.git[ItemOf(s, w).value].commit.Unstarted?
    case ReadSettles(i, which, _) => i < |s.git| && Get(s.git[i], which).Running?
    case Ends(w, outcome) =>
      ItemOf(s, w).Some?
      && var r := s.git[ItemOf(s, w).value];
         if r.commit.Unstarted? then outcome.Rejected? else r.commit == Done(true) && r.branch == Done(true)
    case Finish => P.Enabled(s.pool, P.Finish)
  }

  /** What the event means for the pool; none if it means nothing. */
  function PoolEvent<R, E>(s: State<R, E>, e: Event<R, E>): Option<P.Event<R, E>>
    requires Enabled(s, e)
  {
    match e
    case Start(w) => Some(P.Start(w))
    case ReadsBegin(_) => None
    case ReadSettles(i, _, failure) =>
      if failure.Some? && WorksOn(s, s.git[i].worker, i) then
        Some(P.Settle(s.git[i].worker, i, P.Rejected(failure.value)))
      else None
    case Ends(w, outcome) => Some(P.Settle(w, ItemOf(s, w).value, outcome))
    case Finish => Some(P.Finish)
  }

  function StepReads<R, E>(s: State<R, E>, e: Event<R, E>): seq<Reads>
    requires Enabled(s, e)
  {
    match e
    case ReadsBegin(w) => s.git[ItemOf(s, w).value := Reads(w, Running, Running)]
    case ReadSettles(i, which, failure) => s.git[i := Set(s.git[i], which, Done(failure.None?))]
    case _ => s.git
  }

  function Step<R, E>(s: State<R, E>, e: Event<R, E>): State<R, E> {
    if !Enabled(s, e) then s
    else
      var pe := PoolEvent(s, e);
      State(if pe.Some? then P.Step(s.pool, pe.value) else s.pool, StepReads(s, e))
  }

  function Run<R, E>(count: nat, events: seq<Event<R, E>>): State<R, E> {
    if events == [] then Initial(count) else Step(Run(count, events[..|events| - 1]), events[|events| - 1])
  }

  // ----------------------------------------------------------- refinement

  function PoolEvents<R, E>(count: nat, events: seq<Event<R, E>>): seq<P.Event<R, E>> {
    if events == [] then []
    else
      var front, e := events[..|events| - 1], events[|events| - 1];
      var s := Run(count, front);
      PoolEvents(count, front)
      + if Enabled(s, e) && PoolEvent(s, e).Some? then [PoolEvent(s, e).value] else []
  }

  /** An inspection may fail before its reads, each read may settle either way, and the answer needs both. */
  lemma AnswersMayCome<R, E>(s: State<R, E>, w: nat, which: Which, failure: Option<E>, outcome: P.Outcome<R, E>)
    requires ItemOf(s, w).Some?
    ensures var i := ItemOf(s, w).value;
            && (s.git[i].commit.Unstarted? ==>
                  Enabled(s, ReadsBegin(w)) && (outcome.Rejected? ==> Enabled(s, Ends(w, outcome))))
            && (Get(s.git[i], which).Running? ==> Enabled(s, ReadSettles(i, which, failure)))
            && (s.git[i].commit == Done(true) == s.git[i].branch ==> Enabled(s, Ends(w, outcome)))
  {
  }

  /** Seen from the pool the inspections are calls, so its results hold here too. */
  lemma {:induction false} PoolRefines<R, E>(count: nat, events: seq<Event<R, E>>)
    ensures Run(count, events).pool == P.Run(P.Initial(P.INSPECTOR, count), PoolEvents(count, events))
  {
    if events != [] {
      var front, e := events[..|events| - 1], events[|events| - 1];
      PoolRefines(count, front);
      var s := Run(count, front);
      if Enabled(s, e) && PoolEvent(s, e).Some? {
        P.RunLast(P.Initial(P.INSPECTOR, count), PoolEvents(count, front), PoolEvent(s, e).value);
      } else {
        assert PoolEvents(count, events) == PoolEvents(count, front);
      }
    }
  }

  // ------------------------------------------------------------ invariant

  predicate Failed(read: Read) {
    read == Done(false)
  }

  /**
   While its worker is on the item no read of it has failed; once one has, the
   worker is dead; and a read can outlast the inspection only behind a failed
   one.
   */
  ghost predicate ReadsOk<R, E>(s: State<R, E>, i: nat)
    requires i < |s.git|
  {
    var r := s.git[i];
    && (r.commit.Unstarted? <==> r.branch.Unstarted?)
    && (!r.commit.Unstarted? ==> i < s.pool.next && r.worker < |s.pool.workers| && !s.pool.workers[r.worker].Idle?)
    && (Failed(r.commit) || Failed(r.branch) ==> s.pool.workers[r.worker].Died?)
    && (r.commit.Running? && !WorksOn(s, r.worker, i) ==> Failed(r.branch))
    && (r.branch.Running? && !WorksOn(s, r.worker, i) ==> Failed(r.commit))
  }

  ghost predicate Inv<R, E>(s: State<R, E>) {
    && P.Inv(s.pool) && s.pool.policy == P.INSPECTOR && |s.git| == s.pool.count
    && forall i: nat | i < |s.git| :: ReadsOk(s, i)
  }

  lemma StepKeepsPool<R, E>(s: State<R, E>, e: Event<R, E>)
    requires Inv(s) && Enabled(s, e)
    ensures P.Inv(Step(s, e).pool) && Step(s, e).pool.policy == P.INSPECTOR && Step(s, e).pool.count == s.pool.count
  {
    var pe := PoolEvent(s, e);
    if pe.Some? {
      P.StepKeepsInv(s.pool, pe.value);
    }
  }

  lemma StepKeepsReads<R, E>(s: State<R, E>, e: Event<R, E>, i: nat)
    requires Inv(s) && Enabled(s, e) && i < |s.git|
    ensures ReadsOk(Step(s, e), i)
  {
    assert ReadsOk(s, i);
  }

  lemma {:induction false} RunKeepsInv<R, E>(count: nat, events: seq<Event<R, E>>)
    ensures Inv(Run<R, E>(count, events))
  {
    if events == [] {
      P.InitialInv<R, E>(P.INSPECTOR, count);
    } else {
      var s, e := Run<R, E>(count, events[..|events| - 1]), events[|events| - 1];
      RunKeepsInv(count, events[..|events| - 1]);
      if Enabled(s, e) {
        StepKeepsPool(s, e);
        forall i: nat | i < |s.git| ensures ReadsOk(Step(s, e), i) {
          StepKeepsReads(s, e, i);
        }
      }
    }
  }

  /** An inspection is over with its answer or its own failure, or with the first of its reads to fail. */
  lemma InspectionEndsExactly<R, E>(s: State<R, E>, e: Event<R, E>, w: nat, i: nat)
    requires Inv(s) && Enabled(s, e) && WorksOn(s, w, i)
    requires i < |s.git| && (s.git[i].commit.Unstarted? || s.git[i].worker == w)
    ensures var s' := Step(s, e);
            && (WorksOn(s', w, i) <==>
                  !(e.Ends? && e.worker == w) && !(e.ReadSettles? && e.item == i && e.failure.Some?))
            && (e.Ends? && e.worker == w && e.outcome.Fulfilled? ==> s'.pool.slots[i] == Some(e.outcome))
            && (e.Ends? && e.worker == w && e.outcome.Rejected? ==>
                  s'.pool.workers[w] == P.Died(e.outcome.failure))
            && (e.ReadSettles? && e.item == i && e.failure.Some? ==>
                  s'.pool.workers[w] == P.Died(e.failure.value))
  {
    assert ReadsOk(s, i);
  }

  // --------------------------------------------------------------- result

  ghost predicate NoneRunning<R, E>(s: State<R, E>) {
    forall i: nat, which | i < |s.git| :: !Get(s.git[i], which).Running?
  }

  /**
   When the inspection of all sources is over, a read is still running exactly
   if it has not settled and the read beside it failed; so nothing runs on when
   the inspection answers.
   */
  lemma ReadsOutliveExactly<R, E>(count: nat, events: seq<Event<R, E>>)
    requires Run<R, E>(count, events).pool.finished
    ensures var s := Run<R, E>(count, events);
            && (forall i: nat, which | i < |s.git| ::
                  Get(s.git[i], which).Running?
                  <==> !Get(s.git[i], which).Done? && Failed(Get(s.git[i], Twin(which))))
            && (P.NoneDied(s.pool.workers) ==> NoneRunning(s))
  {
    RunKeepsInv(count, events);
    var s := Run<R, E>(count, events);
    forall i: nat, which | i < |s.git|
      ensures Get(s.git[i], which).Running? <==> !Get(s.git[i], which).Done? && Failed(Get(s.git[i], Twin(which)))
      ensures Get(s.git[i], which).Running? ==> !P.NoneDied(s.pool.workers)
    {
      assert ReadsOk(s, i);
    }
  }

  lemma RunExtends<R, E>(count: nat, events: seq<Event<R, E>>, e: Event<R, E>)
    ensures Run(count, events + [e]) == Step(Run(count, events), e)
  {
    assert (events + [e])[..|events|] == events;
  }

  /** One source, whose commit cannot be read: the inspection throws with the other read under way. */
  lemma ReadMayOutlive<R, E>(reason: E) returns (events: seq<Event<R, E>>)
    ensures var s := Run(1, events);
            && s.pool.finished && s.pool.workers == [P.Died(reason)]
            && |s.git| == 1 && s.git[0].commit == Done(false) && s.git[0].branch == Running
  {
    var none: seq<Event<R, E>> := [];
    RunExtends(1, none, Start(0));
    assert Run(1, none + [Start(0)]).pool.workers == [P.Working(0)];
    RunExtends(1, none + [Start(0)], ReadsBegin(0));
    assert Run(1, none + [Start(0)] + [ReadsBegin(0)]).git == [Reads(0, Running, Running)];
    RunExtends(1, none + [Start(0)] + [ReadsBegin(0)], ReadSettles(0, Commit, Some(reason)));
    events := none + [Start(0)] + [ReadsBegin(0)] + [ReadSettles(0, Commit, Some(reason))];
    assert Run(1, events).pool.workers == [P.Died(reason)];
    RunExtends(1, events, Finish);
    events := events + [Finish];
  }
}
