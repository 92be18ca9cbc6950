/**
 Model of the two bounded worker pools.  A fixed number of workers share a
 counter of the next item.  The release verifier records failures and watches
 an abort signal; the source inspection loses a worker to each failure and
 joins the others before it throws.  A segment between two awaits is one step;
 any step may come next.
 */
module WorkerPool {
  import opened Results

  datatype Outcome<R, E> = Fulfilled(value: R) | Rejected(failure: E)

  datatype Worker<E> = Idle | Working(index: nat) | Returned | Died(reason: E)

  datatype Policy = Policy(limit: nat, failFast: bool)

  const VERIFIER := Policy(6, false)
  const INSPECTOR := Policy(4, true)

  /** `claims` is the history of items handed out. */
  datatype State<R, E> = State(
    policy: Policy,
    count: nat,
    next: nat,
    claims: seq<nat>,
    workers: seq<Worker<E>>,
    slots: seq<Option<Outcome<R, E>>>,
    aborted: Option<E>,
    finished: bool)

  datatype Event<R, E> =
    | Start(worker: nat)
    | Settle(worker: nat, item: nat, outcome: Outcome<R, E>)
    | Abort(reason: E)
    | Finish

  function Initial<R, E>(policy: Policy, count: nat): State<R, E> {
    var size := if policy.limit <= count then policy.limit else count;
    State(policy, count, 0, [], seq(size, _ => Idle), seq(count, _ => None), None, false)
  }

  predicate Over<E>(w: Worker<E>) {
    w.Returned? || w.Died?
  }

  predicate AllOver<E>(workers: seq<Worker<E>>) {
    forall w | 0 <= w < |workers| :: Over(workers[w])
  }

  predicate Enabled<R, E>(s: State<R, E>, e: Event<R, E>) {
    match e
    case Start(w) => w < |s.workers| && s.workers[w].Idle?
    case Settle(w, i, _) =>
      w < |s.workers| && s.workers[w].Working? && s.workers[w].index == i && i < |s.slots|
    case Abort(_) => !s.policy.failFast && !s.finished
    case Finish => !s.finished && AllOver(s.workers)
  }

  /** The head of a worker's loop: claim the next item or return. */
  function Advance<R, E>(s: State<R, E>, w: nat): State<R, E>
    requires w < |s.workers|
  {
    if s.next >= s.count || s.aborted.Some? then s.(workers := s.workers[w := Returned])
    else s.(workers := s.workers[w := Working(s.next)], next := s.next + 1, claims := s.claims + [s.next])
  }

  function Filled<R, E>(slots: seq<Option<Outcome<R, E>>>, reason: E): (r: seq<Option<Outcome<R, E>>>)
    ensures |r| == |slots|
    ensures forall i | 0 <= i < |slots| :: r[i] == if slots[i].None? then Some(Rejected(reason)) else slots[i]
  {
    seq(|slots|, i requires 0 <= i < |slots| => if slots[i].None? then Some(Rejected(reason)) else slots[i])
  }

  function Step<R, E>(s: State<R, E>, e: Event<R, E>): State<R, E> {
    if !Enabled(s, e) then s else
    match e
    case Start(w) => Advance(s, w)
    case Settle(w, i, outcome) =>
      if s.policy.failFast && outcome.Rejected? then s.(workers := s.workers[w := Died(outcome.failure)])
      else Advance(s.(slots := s.slots[i := Some(outcome)]), w)
    case Abort(reason) => if s.aborted.Some? then s else s.(aborted := Some(reason))
    case Finish =>
      s.(finished := true, slots := if s.aborted.Some? then Filled(s.slots, s.aborted.value) else s.slots)
  }

  function Run<R, E>(s: State<R, E>, events: seq<Event<R, E>>): State<R, E>
    decreases |events|
  {
    if events == [] then s else Run(Step(s, events[0]), events[1..])
  }

  // ----------------------------------------------------------- invariant

  /** Items are handed out in order, each once, and no two workers have the same one. */
  ghost predicate Claiming<R, E>(s: State<R, E>) {
    && s.next <= s.count == |s.slots|
    && s.claims == seq(s.next, i => i)
    && (forall w | 0 <= w < |s.workers| && s.workers[w].Working? ::
          s.workers[w].index < s.next && s.slots[s.workers[w].index].None?)
    && (forall v, w | 0 <= v < w < |s.workers| && s.workers[v].Working? && s.workers[w].Working? ::
          s.workers[v].index != s.workers[w].index)
  }

  ghost predicate HeldBy<R, E>(s: State<R, E>, i: nat) {
    exists w | 0 <= w < |s.workers| :: s.workers[w] == Working(i) || s.workers[w].Died?
  }

  /** An item handed out has its outcome, or a worker has it, or a worker died. */
  ghost predicate Accounted<R, E>(s: State<R, E>) {
    && |s.slots| == s.count && s.next <= s.count
    && (forall i: nat | i < s.next && s.slots[i].None? :: HeldBy(s, i))
    && (!s.finished ==> forall i | s.next <= i < s.count :: s.slots[i].None?)
    && (s.finished && s.aborted.Some? ==> forall i | s.next <= i < s.count :: s.slots[i].Some?)
  }

  ghost predicate Pooled<R, E>(s: State<R, E>) {
    && s.policy.limit > 0
    && |s.workers| == (if s.policy.limit <= s.count then s.policy.limit else s.count)
    && (forall w | 0 <= w < |s.workers| && s.workers[w].Returned? :: s.next == s.count || s.aborted.Some?)
    && (s.finished ==> AllOver(s.workers))
    && (!s.policy.failFast ==> forall w | 0 <= w < |s.workers| :: !s.workers[w].Died?)
    && (s.policy.failFast ==> s.aborted.None? && forall i | 0 <= i < |s.slots| && s.slots[i].Some? ::
        s.slots[i].value.Fulfilled?)
  }

  ghost predicate Inv<R, E>(s: State<R, E>) {
    Claiming(s) && Accounted(s) && Pooled(s)
  }

  lemma InitialInv<R, E>(policy: Policy, count: nat)
    requires policy.limit > 0
    ensures Inv(Initial<R, E>(policy, count))
  {
  }

  lemma AdvanceKeepsInv<R, E>(s: State<R, E>, w: nat)
    requires Claiming(s) && Pooled(s) && !s.finished && w < |s.workers|
    requires |s.slots| == s.count && forall i | s.next <= i < s.count :: s.slots[i].None?
    requires forall i: nat | i < s.next && s.slots[i].None? :: HeldBy(s.(workers := s.workers[w := Idle]), i)
    ensures Inv(Advance(s, w))
  {
    var idle, s' := s.(workers := s.workers[w := Idle]), Advance(s, w);
    forall i: nat | i < s'.next && s'.slots[i].None? ensures HeldBy(s', i) {
      if i < s.next {
        assert HeldBy(idle, i);
        var v :| 0 <= v < |idle.workers| && (idle.workers[v] == Working(i) || idle.workers[v].Died?);
        assert v != w && s'.workers[v] == idle.workers[v];
      } else {
        assert s'.workers[w] == Working(i);
      }
    }
  }

  /** Without its item, settled or not yet claimed, a worker holds up nobody. */
  lemma OthersHold<R, E>(s: State<R, E>, w: nat, i: nat)
    requires w < |s.workers| && !s.workers[w].Died? && HeldBy(s, i) && s.workers[w] != Working(i)
    ensures HeldBy(s.(workers := s.workers[w := Idle]), i)
  {
    var v :| 0 <= v < |s.workers| && (s.workers[v] == Working(i) || s.workers[v].Died?);
    var idle := s.(workers := s.workers[w := Idle]);
    assert idle.workers[v] == s.workers[v];
  }

  lemma StartKeepsInv<R, E>(s: State<R, E>, w: nat)
    requires Inv(s) && w < |s.workers| && s.workers[w].Idle?
    ensures Inv(Advance(s, w))
  {
    forall i: nat | i < s.next && s.slots[i].None? ensures HeldBy(s.(workers := s.workers[w := Idle]), i) {
      OthersHold(s, w, i);
    }
    AdvanceKeepsInv(s, w);
  }

  lemma SettleKeepsInv<R, E>(s: State<R, E>, w: nat, outcome: Outcome<R, E>)
    requires Inv(s) && w < |s.workers| && s.workers[w].Working? && (s.policy.failFast ==> outcome.Fulfilled?)
    ensures Inv(Advance(s.(slots := s.slots[s.workers[w].index := Some(outcome)]), w))
  {
    var i := s.workers[w].index;
    var stored := s.(slots := s.slots[i := Some(outcome)]);
    var released := stored.(workers := s.workers[w := Idle]);
    assert released.workers[w := Idle] == released.workers;
    forall k: nat | k < s.next && released.slots[k].None?
      ensures HeldBy(released.(workers := released.workers[w := Idle]), k)
    {
      OthersHold(s, w, k);
      HeldAlike(s.(workers := s.workers[w := Idle]), released, k);
    }
    AdvanceKeepsInv(released, w);
    assert released.workers[w := Returned] == stored.workers[w := Returned];
    assert released.workers[w := Working(s.next)] == stored.workers[w := Working(s.next)];
  }

  lemma HeldAlike<R, E>(s: State<R, E>, t: State<R, E>, i: nat)
    requires HeldBy(s, i) && s.workers == t.workers
    ensures HeldBy(t, i)
  {
  }

  lemma DeathKeepsInv<R, E>(s: State<R, E>, w: nat, reason: E)
    requires Inv(s) && s.policy.failFast && w < |s.workers| && s.workers[w].Working?
    ensures Inv(s.(workers := s.workers[w := Died(reason)]))
  {
    var s' := s.(workers := s.workers[w := Died(reason)]);
    forall i: nat | i < s'.next && s'.slots[i].None? ensures HeldBy(s', i) {
      assert s'.workers[w].Died?;
    }
  }

  lemma FinishKeepsInv<R, E>(s: State<R, E>)
    requires Inv(s) && Enabled(s, Finish)
    ensures Inv(Step(s, Finish))
  {
    var s' := Step(s, Finish);
    forall i: nat | i < s'.next && s'.slots[i].None? ensures HeldBy(s', i) {
      assert s.slots[i].None?;
      HeldAlike(s, s', i);
    }
  }

  lemma AbortKeepsInv<R, E>(s: State<R, E>, reason: E)
    requires Inv(s) && Enabled(s, Abort(reason)) && s.aborted.None?
    ensures Inv(s.(aborted := Some(reason)))
  {
    var s' := s.(aborted := Some(reason));
    forall i: nat | i < s'.next && s'.slots[i].None? ensures HeldBy(s', i) {
      HeldAlike(s, s', i);
    }
  }

  lemma StepKeepsInv<R, E>(s: State<R, E>, e: Event<R, E>)
    requires Inv(s)
    ensures Inv(Step(s, e))
  {
    if Enabled(s, e) {
      match e
      case Start(w) => StartKeepsInv(s, w);
      case Settle(w, i, outcome) =>
        if s.policy.failFast && outcome.Rejected? {
          DeathKeepsInv(s, w, outcome.failure);
        } else {
          SettleKeepsInv(s, w, outcome);
        }
      case Abort(reason) =>
        if s.aborted.None? {
          AbortKeepsInv(s, reason);
        }
      case Finish => FinishKeepsInv(s);
    }
  }

  lemma {:induction false} RunKeepsInv<R, E>(s: State<R, E>, events: seq<Event<R, E>>)
    requires Inv(s)
    ensures Inv(Run(s, events))
    decreases |events|
  {
    if events != [] {
      StepKeepsInv(s, events[0]);
      RunKeepsInv(Step(s, events[0]), events[1..]);
    }
  }

  // ------------------------------------------------------------- results

  /** Whatever the schedule, items are handed out in source order and each at most once. */
  lemma ClaimsAreInOrder<R, E>(policy: Policy, count: nat, events: seq<Event<R, E>>)
    requires policy.limit > 0
    ensures var s := Run(Initial(policy, count), events);
            && |s.claims| <= count && (forall k | 0 <= k < |s.claims| :: s.claims[k] == k)
  {
    InitialInv<R, E>(policy, count);
    RunKeepsInv(Initial(policy, count), events);
    RunKeepsPolicy(Initial<R, E>(policy, count), events);
  }

  /** The items some worker is busy with. */
  ghost function InFlight<E>(workers: seq<Worker<E>>): set<nat> {
    set w | 0 <= w < |workers| && workers[w].Working? :: workers[w].index
  }

  lemma {:induction false} InFlightSize<E>(workers: seq<Worker<E>>)
    ensures |InFlight(workers)| <= |workers|
  {
    if workers != [] {
      var front, last := workers[..|workers| - 1], workers[|workers| - 1];
      InFlightSize(front);
      assert forall w | 0 <= w < |front| :: front[w] == workers[w];
      assert InFlight(workers) <= InFlight(front) + if last.Working? then {last.index} else {};
      SubsetSize(InFlight(workers), InFlight(front) + if last.Working? then {last.index} else {});
    }
  }

  lemma {:induction false} SubsetSize(a: set<nat>, b: set<nat>)
    requires a <= b
    ensures |a| <= |b|
  {
    if a != {} {
      var x :| x in a;
      SubsetSize(a - {x}, b - {x});
    }
  }

  /** At most the policy's limit is in flight: six builds, four inspections. */
  lemma InFlightIsBounded<R, E>(policy: Policy, count: nat, events: seq<Event<R, E>>)
    requires policy.limit > 0
    ensures |InFlight(Run(Initial<R, E>(policy, count), events).workers)| <= policy.limit
  {
    InitialInv<R, E>(policy, count);
    RunKeepsInv(Initial(policy, count), events);
    RunKeepsPolicy(Initial<R, E>(policy, count), events);
    InFlightSize(Run(Initial<R, E>(policy, count), events).workers);
  }

  lemma {:induction false} RunKeepsPolicy<R, E>(s: State<R, E>, events: seq<Event<R, E>>)
    ensures Run(s, events).policy == s.policy && Run(s, events).count == s.count
    decreases |events|
  {
    if events != [] {
      RunKeepsPolicy(Step(s, events[0]), events[1..]);
    }
  }

  lemma {:induction false} RunLast<R, E>(s: State<R, E>, events: seq<Event<R, E>>, e: Event<R, E>)
    ensures Run(s, events + [e]) == Step(Run(s, events), e)
    decreases |events|
  {
    if events == [] {
      assert Run(Step(s, e), []) == Step(s, e);
    } else {
      assert (events + [e])[1..] == events[1..] + [e];
      RunLast(Step(s, events[0]), events[1..], e);
    }
  }

  /** Event `k` of the run settles worker `w`'s call for item `i`. */
  ghost predicate SettledAt<R, E>(
      s: State<R, E>, events: seq<Event<R, E>>, k: nat, w: nat, i: nat, outcome: Outcome<R, E>)
  {
    k < |events| && events[k] == Settle(w, i, outcome) && Enabled(Run(s, events[..k]), events[k])
  }

  /** Some worker's call for item `i` settled with this outcome in the run. */
  ghost predicate Gave<R, E>(s: State<R, E>, events: seq<Event<R, E>>, i: nat, outcome: Outcome<R, E>) {
    exists k: nat, w: nat :: SettledAt(s, events, k, w, i, outcome)
  }

  /** Worker `w`'s call for some item settled with this rejection in the run. */
  ghost predicate GaveUp<R, E>(s: State<R, E>, events: seq<Event<R, E>>, w: nat, reason: E) {
    exists k: nat, i: nat :: SettledAt(s, events, k, w, i, Rejected(reason))
  }

  lemma SettledStays<R, E>(
      s: State<R, E>, events: seq<Event<R, E>>, e: Event<R, E>, k: nat, w: nat, i: nat, outcome: Outcome<R, E>)
    requires SettledAt(s, events, k, w, i, outcome)
    ensures SettledAt(s, events + [e], k, w, i, outcome)
  {
    assert (events + [e])[..k] == events[..k];
  }

  lemma SettlesNow<R, E>(s: State<R, E>, events: seq<Event<R, E>>, e: Event<R, E>)
    requires e.Settle? && Enabled(Run(s, events), e)
    ensures SettledAt(s, events + [e], |events|, e.worker, e.item, e.outcome)
  {
    assert (events + [e])[..|events|] == events;
  }

  /**
   A filled slot of a handed-out item holds what that item's own call gave; a dead worker's reason is its own call's.
   */
  ghost predicate Answered<R, E>(s0: State<R, E>, events: seq<Event<R, E>>) {
    var s := Run(s0, events);
    && (forall i: nat | i < s.next && i < |s.slots| && s.slots[i].Some? :: Gave(s0, events, i, s.slots[i].value))
    && (forall w: nat | w < |s.workers| && s.workers[w].Died? :: GaveUp(s0, events, w, s.workers[w].reason))
  }

  /** With every worker home alive, every item handed out has its outcome. */
  lemma HomeMeansFilled<R, E>(s: State<R, E>)
    requires Inv(s) && AllOver(s.workers) && forall w | 0 <= w < |s.workers| :: !s.workers[w].Died?
    ensures forall i | 0 <= i < s.next :: s.slots[i].Some?
  {
    forall i: nat | i < s.next ensures s.slots[i].Some? {
      assert s.slots[i].None? ==> HeldBy(s, i);
    }
  }

  /** The slots and deaths a step leaves are old ones or its own. */
  lemma StepFills<R, E>(s: State<R, E>, e: Event<R, E>)
    requires Inv(s)
    ensures var s' := Step(s, e);
            && (forall i: nat | i < s'.next && i < |s'.slots| && s'.slots[i].Some? ::
                  (i < s.next && i < |s.slots| && s.slots[i] == s'.slots[i])
                  || (e.Settle? && Enabled(s, e) && e.item == i && s'.slots[i] == Some(e.outcome)))
            && (forall w: nat | w < |s'.workers| && s'.workers[w].Died? ::
                  (w < |s.workers| && s.workers[w] == s'.workers[w])
                  || (e.Settle? && Enabled(s, e) && e.worker == w && e.outcome == Rejected(s'.workers[w].reason)))
  {
    if e.Finish? && Enabled(s, e) && !s.policy.failFast {
      HomeMeansFilled(s);
    }
  }

  lemma StepAnswers<R, E>(s0: State<R, E>, events: seq<Event<R, E>>, e: Event<R, E>)
    requires Inv(Run(s0, events)) && Answered(s0, events)
    ensures Answered(s0, events + [e])
  {
    RunLast(s0, events, e);
    var s, s' := Run(s0, events), Run(s0, events + [e]);
    StepFills(s, e);
    if e.Settle? && Enabled(s, e) {
      SettlesNow(s0, events, e);
    }
    forall i: nat | i < s'.next && i < |s'.slots| && s'.slots[i].Some?
      ensures Gave(s0, events + [e], i, s'.slots[i].value)
    {
      if i < s.next && i < |s.slots| && s.slots[i] == s'.slots[i] {
        var k: nat, w: nat :| SettledAt(s0, events, k, w, i, s.slots[i].value);
        SettledStays(s0, events, e, k, w, i, s.slots[i].value);
      }
    }
    forall w: nat | w < |s'.workers| && s'.workers[w].Died?
      ensures GaveUp(s0, events + [e], w, s'.workers[w].reason)
    {
      if w < |s.workers| && s.workers[w] == s'.workers[w] {
        assert GaveUp(s0, events, w, s.workers[w].reason);
        var k: nat, i: nat :| SettledAt(s0, events, k, w, i, Rejected(s.workers[w].reason));
        SettledStays(s0, events, e, k, w, i, Rejected(s.workers[w].reason));
      }
    }
  }

  lemma {:induction false} RunAnswers<R, E>(policy: Policy, count: nat, events: seq<Event<R, E>>)
    requires policy.limit > 0
    ensures Answered(Initial<R, E>(policy, count), events)
    decreases |events|
  {
    if events != [] {
      var front, last := events[..|events| - 1], events[|events| - 1];
      RunAnswers(policy, count, front);
      InitialInv<R, E>(policy, count);
      RunKeepsInv(Initial(policy, count), front);
      StepAnswers(Initial(policy, count), front, last);
      assert front + [last] == events;
    }
  }

  lemma {:induction false} LaterAbortsIgnored<R, E>(s: State<R, E>, events: seq<Event<R, E>>)
    requires s.aborted.Some? || s.finished || s.policy.failFast
    ensures Run(s, events).aborted == s.aborted
    decreases |events|
  {
    if events != [] {
      LaterAbortsIgnored(Step(s, events[0]), events[1..]);
    }
  }

  /** The abort reason is that of the first abort, if the pool watches for one and was not finished before. */
  lemma {:induction false} FirstAbortCounts<R, E>(s: State<R, E>, events: seq<Event<R, E>>, k: nat)
    requires s.aborted.None? && k <= |events| && forall j | 0 <= j < k :: !events[j].Abort?
    ensures k == |events| ==> Run(s, events).aborted == None
    ensures k < |events| && events[k].Abort? ==>
              Run(s, events).aborted
              == if s.policy.failFast || Run(s, events[..k]).finished then None else Some(events[k].reason)
    decreases |events|
  {
    if events != [] {
      var next := Step(s, events[0]);
      if k == 0 {
        if events[0].Abort? {
          LaterAbortsIgnored(next, events[1..]);
        }
      } else {
        FirstAbortCounts(next, events[1..], k - 1);
        assert k < |events| ==> events[1..][..k - 1] == events[..k][1..];
      }
    }
  }

  /** Filled with the outcome of the item's own call or, if there was none, with the abort reason. */
  ghost predicate SlotIsRight<R, E>(s0: State<R, E>, events: seq<Event<R, E>>, i: nat) {
    var s := Run(s0, events);
    && i < |s.slots| && s.slots[i].Some?
    && (if i < |s.claims| then Gave(s0, events, i, s.slots[i].value)
        else s.aborted.Some? && s.slots[i].value == Rejected(s.aborted.value))
  }

  /**
   A finished batch has every slot filled, at its source's own index: with what
   that source's call gave or, where no call was made, with the abort reason.
   */
  lemma BatchFillsEverySlot<R, E>(count: nat, events: seq<Event<R, E>>)
    requires Run(Initial(VERIFIER, count), events).finished
    ensures var s := Run(Initial(VERIFIER, count), events);
            |s.slots| == count
            && forall i: nat | i < count :: SlotIsRight(Initial(VERIFIER, count), events, i)
  {
    var s0, s := Initial<R, E>(VERIFIER, count), Run(Initial(VERIFIER, count), events);
    InitialInv<R, E>(VERIFIER, count);
    RunKeepsInv(s0, events);
    RunKeepsPolicy(s0, events);
    RunAnswers(VERIFIER, count, events);
    RunCancels(s0, events);
    HomeMeansFilled(s);
    assert |s.claims| == s.next && |s.slots| == count;
    forall i: nat | i < count
      ensures SlotIsRight(s0, events, i)
    {
      if s.next <= i {
        assert s.workers[0].Returned?;
      }
    }
  }

  /** What was never handed out is cancelled, not invented. */
  ghost predicate Cancelled<R, E>(s: State<R, E>) {
    forall i | s.next <= i < |s.slots| && s.slots[i].Some? ::
      s.aborted.Some? && s.slots[i].value == Rejected(s.aborted.value)
  }

  lemma {:induction false} RunCancels<R, E>(s: State<R, E>, events: seq<Event<R, E>>)
    requires Inv(s) && Cancelled(s)
    ensures Cancelled(Run(s, events))
    decreases |events|
  {
    if events != [] {
      StepKeepsInv(s, events[0]);
      RunCancels(Step(s, events[0]), events[1..]);
    }
  }

  ghost predicate NoneDied<E>(workers: seq<Worker<E>>) {
    forall w | 0 <= w < |workers| :: !workers[w].Died?
  }

  /**
   The inspection answers only if every source was inspected, and then with
   each source's own result at its index; it throws only reasons that its own
   inspections failed with, and either way each inspection it started has ended.
   */
  lemma InspectionJoins<R, E>(count: nat, events: seq<Event<R, E>>)
    requires Run(Initial<R, E>(INSPECTOR, count), events).finished
    ensures var s0, s := Initial<R, E>(INSPECTOR, count), Run(Initial<R, E>(INSPECTOR, count), events);
            && InFlight(s.workers) == {}
            && (NoneDied(s.workers) ==>
                  |s.slots| == count
                  && forall i: nat | i < count ::
                       s.slots[i].Some? && s.slots[i].value.Fulfilled? && Gave(s0, events, i, s.slots[i].value))
            && (forall w: nat | w < |s.workers| && s.workers[w].Died? :: GaveUp(s0, events, w, s.workers[w].reason))
  {
    var s0, s := Initial<R, E>(INSPECTOR, count), Run(Initial<R, E>(INSPECTOR, count), events);
    InitialInv<R, E>(INSPECTOR, count);
    RunKeepsInv(s0, events);
    RunKeepsPolicy(s0, events);
    RunAnswers(INSPECTOR, count, events);
    if NoneDied(s.workers) {
      HomeMeansFilled(s);
      assert count > 0 ==> s.workers[0].Returned?;
    }
  }

  // ------------------------------------------------------------- progress

  function Weight<E>(w: Worker<E>): nat {
    match w case Idle => 2 case Working(_) => 1 case _ => 0
  }

  function Weights<E>(workers: seq<Worker<E>>): nat {
    if workers == [] then 0 else Weights(workers[..|workers| - 1]) + Weight(workers[|workers| - 1])
  }

  lemma {:induction false} WeightsUpdate<E>(workers: seq<Worker<E>>, w: nat, worker: Worker<E>)
    requires w < |workers|
    ensures Weights(workers[w := worker]) == Weights(workers) - Weight(workers[w]) + Weight(worker)
  {
    var n := |workers| - 1;
    if w < n {
      WeightsUpdate(workers[..n], w, worker);
      assert workers[w := worker][..n] == workers[..n][w := worker];
    } else {
      assert workers[w := worker][..n] == workers[..n];
    }
  }

  /** Steps the workers can still take. */
  function Remaining<R, E>(s: State<R, E>): int {
    2 * (s.count - s.next) + Weights(s.workers)
  }

  /** No schedule runs forever: every start and every settled call brings the pool nearer to its end. */
  lemma StepsRunOut<R, E>(s: State<R, E>, e: Event<R, E>)
    requires Inv(s) && Enabled(s, e) && (e.Start? || e.Settle?)
    ensures 0 <= Remaining(Step(s, e)) < Remaining(s)
  {
    StepKeepsInv(s, e);
    var w := e.worker;
    WeightsUpdate(s.workers, w, Returned);
    WeightsUpdate(s.workers, w, Working(s.next));
    if e.Settle? && e.outcome.Rejected? {
      WeightsUpdate(s.workers, w, Died(e.outcome.failure));
    }
  }

  /** A pool that is not finished always has a step to take once its calls settle. */
  lemma SomeStepIsEnabled<R, E>(s: State<R, E>, outcome: Outcome<R, E>) returns (e: Event<R, E>)
    requires Inv(s) && !s.finished
    ensures Enabled(s, e) && !e.Abort? && (e.Settle? ==> e.outcome == outcome)
  {
    if AllOver(s.workers) {
      e := Finish;
    } else {
      var w: nat :| w < |s.workers| && !Over(s.workers[w]);
      e := if s.workers[w].Idle? then Start(w) else Settle(w, s.workers[w].index, outcome);
    }
  }

  // --------------------------------------------------------------- object

  /** The shared counter, the workers and the preallocated slots. */
  class Pool<R, E> {
    const policy: Policy
    const count: nat
    const slots: array<Option<Outcome<R, E>>>
    var next: nat
    var workers: seq<Worker<E>>
    var aborted: Option<E>
    var finished: bool
    ghost var claims: seq<nat>

    ghost function View(): State<R, E>
      reads this, slots
    {
      State(policy, count, next, claims, workers, slots[..], aborted, finished)
    }

    ghost predicate Valid()
      reads this, slots
    {
      Inv(View())
    }

    constructor (policy: Policy, count: nat)
      requires policy.limit > 0
      ensures Valid() && fresh(slots) && View() == Initial<R, E>(policy, count)
    {
      this.policy, this.count := policy, count;
      slots := new Option<Outcome<R, E>>[count](_ => None);
      next, workers, aborted, finished, claims := 0, Initial<R, E>(policy, count).workers, None, false, [];
      new;
      assert slots[..] == seq(count, _ => None);
      InitialInv<R, E>(policy, count);
    }

    /** The head of a worker's loop. */
    method Continue(w: nat)
      requires w < |workers|
      modifies this`next, this`workers, this`claims
      ensures View() == Advance(old(View()), w)
    {
      if next < count && aborted.None? {
        workers := workers[w := Working(next)];
        claims := claims + [next];
        next := next + 1;
      } else {
        workers := workers[w := Returned];
      }
    }

    method StartWorker(w: nat)
      requires Valid() && Enabled(View(), Start(w))
      modifies this`next, this`workers, this`claims
      ensures Valid() && View() == Step(old(View()), Start(w))
    {
      StepKeepsInv(View(), Start(w));
      Continue(w);
    }

    /** A worker's call has settled. */
    method SettleCall(w: nat, outcome: Outcome<R, E>)
      requires Valid() && w < |workers| && workers[w].Working? && Enabled(View(), Settle(w, workers[w].index, outcome))
      modifies this`next, this`workers, this`claims, slots
      ensures Valid() && View() == Step(old(View()), Settle(w, old(workers[w].index), outcome))
    {
      StepKeepsInv(View(), Settle(w, workers[w].index, outcome));
      if policy.failFast && outcome.Rejected? {
        workers := workers[w := Died(outcome.failure)];
      } else {
        slots[workers[w].index] := Some(outcome);
        Continue(w);
      }
    }

    method SignalAbort(reason: E)
      requires Valid() && Enabled(View(), Abort(reason))
      modifies this`aborted
      ensures Valid() && View() == Step(old(View()), Abort(reason))
    {
      StepKeepsInv(View(), Abort(reason));
      if aborted.None? {
        aborted := Some(reason);
      }
    }

    /** Every worker is home: fill the slots of cancelled items. */
    method Join()
      requires Valid() && Enabled(View(), Finish)
      modifies this`finished, slots
      ensures Valid() && View() == Step(old(View()), Finish)
    {
      StepKeepsInv(View(), Finish);
      finished := true;
      if aborted.Some? {
        FillWith(aborted.value);
      }
    }

    method FillWith(reason: E)
      modifies slots
      ensures slots[..] == Filled(old(slots[..]), reason)
    {
      ghost var before := slots[..];
      for i := 0 to slots.Length
        invariant forall k | 0 <= k < i :: slots[k] == if before[k].None? then Some(Rejected(reason)) else before[k]
        invariant forall k | i <= k < slots.Length :: slots[k] == before[k]
      {
        if slots[i].None? {
          slots[i] := Some(Rejected(reason));
        }
      }
    }
  }
}
