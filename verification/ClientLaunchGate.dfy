/**
 Model of the client launch gate: ask the launcher, put approvals to the
 person, and while the launch is being prepared wait for the server's next
 change.  The environment answers the awaited calls, bumps the change signal,
 aborts signals and starts other waits, in any order.
 */
module ClientLaunchGate {
  import opened Results
  import ChangeSignal

  datatype LaunchState = Ready | Unavailable | ApprovalRequired(count: nat) | Preparing

  datatype Outcome = Launched | NotAvailable | Denied | Failed

  datatype Decision = Accept | Deny | Interrupted

  /** Which launcher call is awaited. */
  datatype Query = Launch | ClientsChanged

  datatype Pc =
    | NotStarted
    | Querying(query: Query)
    | Deciding(count: nat)
    | Resolving(count: nat, accepted: bool)
    | Parked(wait: nat)
    | Finished(outcome: Outcome)

  /** What a launcher call settles with; `Answered(None)` is a null answer. */
  datatype Reply = Threw | Answered(state: Option<LaunchState>)

  /** `askedAt` is the revision at which the latest launcher call began. */
  datatype State = State(
    signal: ChangeSignal.State,
    owner: Option<nat>,
    pc: Pc,
    seen: int,
    askedAt: int,
    approvalsResolved: nat)

  datatype Event = Start | Replied(reply: Reply) | Decided(decision: Decision) | Wake | Other(event: ChangeSignal.Event)

  function Init(owner: Option<nat>): State {
    State(ChangeSignal.Init(), owner, NotStarted, 0, 0, 0)
  }

  predicate Enabled(s: State, e: Event) {
    match e
    case Start => s.pc == NotStarted
    case Replied(reply) =>
      (s.pc.Querying? && (s.pc.query.Launch? ==> reply != Answered(None))) || s.pc.Resolving?
    case Decided(_) => s.pc.Deciding?
    case Wake =>
      s.pc.Parked? && s.pc.wait < |s.signal.waits| && s.signal.waits[s.pc.wait].outcome != ChangeSignal.Unsettled
    case Other(_) => true
  }

  function Finish(s: State, outcome: Outcome): State {
    s.(pc := Finished(outcome))
  }

  /** `seen = changes.revision()` followed by a launcher call. */
  function Ask(s: State, pc: Pc): State {
    s.(pc := pc, seen := s.signal.current, askedAt := s.signal.current)
  }

  /** One turn of the loop, from its head to the next await. */
  function Dispatch(s: State, launch: LaunchState): State {
    if ChangeSignal.IsAborted(s.signal, s.owner) then Finish(s, Failed)
    else
      match launch
      case Ready => Finish(s, Launched)
      case Unavailable => Finish(s, NotAvailable)
      case ApprovalRequired(count) => s.(pc := Deciding(count))
      case Preparing =>
        s.(pc := Parked(|s.signal.waits|), signal := ChangeSignal.Step(s.signal, ChangeSignal.Begin(s.seen, s.owner)))
  }

  function Step(s: State, e: Event): State
    requires Enabled(s, e)
  {
    match e
    case Start =>
      if ChangeSignal.IsAborted(s.signal, s.owner) then
        Finish(s.(seen := s.signal.current, askedAt := s.signal.current), Failed)
      else Ask(s, Querying(Launch))
    case Replied(Threw) => Finish(s, Failed)
    case Replied(Answered(answer)) =>
      (match s.pc
       case Resolving(count, accepted) =>
         if !accepted || answer == None then Finish(s, Denied)
         else Dispatch(s.(approvalsResolved := s.approvalsResolved + count), answer.value)
       case _ => Dispatch(s, if answer.Some? then answer.value else Preparing))
    case Decided(decision) =>
      if decision == Interrupted then Finish(s, Failed) else Ask(s, Resolving(s.pc.count, decision == Accept))
    case Wake =>
      if s.signal.waits[s.pc.wait].outcome == ChangeSignal.Rejected then Finish(s, Failed)
      else Ask(s, Querying(ClientsChanged))
    case Other(event) => s.(signal := ChangeSignal.Step(s.signal, event))
  }

  /** Every launcher call began at the revision `seen`, and a parked gate waits from there. */
  ghost predicate Inv(s: State) {
    && ChangeSignal.Inv(s.signal)
    && s.seen == s.askedAt
    && s.askedAt <= s.signal.current
    && (s.pc.Parked? ==> s.pc.wait < |s.signal.waits| && s.signal.waits[s.pc.wait].after == s.seen)
  }

  lemma StepKeepsInv(s: State, e: Event)
    requires Inv(s) && Enabled(s, e)
    ensures Inv(Step(s, e))
    ensures Step(s, e).signal.current == s.signal.current + (if e == Other(ChangeSignal.Bump) then 1 else 0)
  {
    ChangeSignal.StepKeepsInv(s.signal, ChangeSignal.Begin(s.seen, s.owner));
    if e.Other? {
      ChangeSignal.StepKeepsInv(s.signal, e.event);
    }
  }

  // ---------------------------------------------------------------- runs

  ghost predicate Run(states: seq<State>, events: seq<Event>) {
    && |states| == |events| + 1
    && states[0] == Init(states[0].owner)
    && forall i | 0 <= i < |events| ::
         Enabled(states[i], events[i]) && states[i + 1] == Step(states[i], events[i])
  }

  lemma {:induction false} RunKeepsInv(states: seq<State>, events: seq<Event>, i: nat)
    requires Run(states, events) && i <= |events|
    ensures Inv(states[i])
  {
    if i > 0 {
      RunKeepsInv(states, events, i - 1);
      StepKeepsInv(states[i - 1], events[i - 1]);
    }
  }

  lemma StepGrows(s: State, e: Event)
    requires Enabled(s, e)
    ensures s.signal.current <= Step(s, e).signal.current
  {
  }

  lemma NextGrows(states: seq<State>, events: seq<Event>, i: nat)
    requires Run(states, events) && i < |events|
    ensures states[i].signal.current <= states[i + 1].signal.current
  {
    assert Enabled(states[i], events[i]);
    StepGrows(states[i], events[i]);
  }

  lemma {:induction false} RevisionOnlyGrows(states: seq<State>, events: seq<Event>, i: nat, j: nat)
    requires Run(states, events) && i <= j <= |events|
    ensures states[i].signal.current <= states[j].signal.current
    decreases j
  {
    if i < j {
      RevisionOnlyGrows(states, events, i, j - 1);
      NextGrows(states, events, j - 1);
    }
  }

  /** Event `q` begins a launcher call. */
  ghost predicate Asks(s: State, e: Event)
    requires Enabled(s, e)
  {
    Step(s, e).pc != s.pc && (Step(s, e).pc.Querying? || Step(s, e).pc.Resolving?)
  }

  lemma {:induction false} AskedAtLatest(states: seq<State>, events: seq<Event>, q: nat, k: nat)
    requires Run(states, events) && q < k <= |events|
    requires Asks(states[q], events[q])
    requires forall j | q < j < k :: !Asks(states[j], events[j])
    ensures states[k].askedAt == states[q].signal.current
    ensures !states[k].pc.NotStarted?
    decreases k
  {
    if q + 1 < k {
      AskedAtLatest(states, events, q, k - 1);
    }
  }

  /**
   No lost wake-up: while the gate is parked on a pending wait, no bump has
   happened since its latest launcher call began.
   */
  lemma NoLostWakeup(states: seq<State>, events: seq<Event>, q: nat, k: nat, j: nat)
    requires Run(states, events) && q < k <= |events|
    requires Asks(states[q], events[q])
    requires forall i | q < i < k :: !Asks(states[i], events[i])
    requires states[k].pc.Parked? && states[k].pc.wait < |states[k].signal.waits|
    requires states[k].signal.waits[states[k].pc.wait].outcome == ChangeSignal.Unsettled
    requires q <= j < k
    ensures events[j] != Other(ChangeSignal.Bump)
  {
    RunKeepsInv(states, events, k);
    AskedAtLatest(states, events, q, k);
    RevisionOnlyGrows(states, events, q, j);
    RevisionOnlyGrows(states, events, j + 1, k);
    RunKeepsInv(states, events, j);
    StepKeepsInv(states[j], events[j]);
  }

  /** So a change during a launcher call, or any later one, always gets the gate going again. */
  lemma ChangeWakesGate(states: seq<State>, events: seq<Event>, i: nat)
    requires Run(states, events) && i <= |events| && states[i].pc.Parked?
    requires states[i].signal.current != states[i].askedAt
    ensures Enabled(states[i], Wake)
  {
    RunKeepsInv(states, events, i);
  }

  /** The approvals of the accepted resolutions among the first `n` events. */
  ghost function Accepted(states: seq<State>, events: seq<Event>, n: nat): nat
    requires Run(states, events) && n <= |events|
  {
    if n == 0 then 0
    else
      var s, e := states[n - 1], events[n - 1];
      Accepted(states, events, n - 1)
      + if s.pc.Resolving? && s.pc.accepted && e.Replied? && e.reply.Answered? && e.reply.state.Some?
        then s.pc.count else 0
  }

  lemma {:induction false} ApprovalsAreCounted(states: seq<State>, events: seq<Event>, i: nat)
    requires Run(states, events) && i <= |events|
    ensures states[i].approvalsResolved == Accepted(states, events, i)
    ensures states[i].pc == Finished(Denied) ==>
              exists j | 0 <= j < i :: states[j].pc.Resolving? && events[j].Replied?
                                       && (!states[j].pc.accepted || events[j].reply == Answered(None))
  {
    if i > 0 {
      ApprovalsAreCounted(states, events, i - 1);
    }
  }

  /** The launcher answers with this state, not to a denial, while the owner has not aborted. */
  predicate Answers(s: State, e: Event, launch: LaunchState) {
    && e == Replied(Answered(Some(launch))) && (s.pc.Resolving? ==> s.pc.accepted)
    && !(s.owner.Some? && s.owner.value in s.signal.aborted)
  }

  /** The launcher has nothing new to say. */
  predicate AnswersNothing(s: State, e: Event) {
    e == Replied(Answered(None)) && s.pc == Querying(ClientsChanged)
    && !(s.owner.Some? && s.owner.value in s.signal.aborted)
  }

  /** What the gate does next is what the launcher's own answer says. */
  lemma AnswersDecide(states: seq<State>, events: seq<Event>, k: nat, count: nat)
    requires Run(states, events) && k < |events| && !events[k].Other?
    ensures var s, e, pc := states[k], events[k], states[k + 1].pc;
            && (pc == Finished(Launched) <==> Answers(s, e, Ready))
            && (pc == Finished(NotAvailable) <==> Answers(s, e, Unavailable))
            && (pc == Deciding(count) <==> Answers(s, e, ApprovalRequired(count)))
            && (pc.Parked? <==> Answers(s, e, Preparing) || AnswersNothing(s, e))
            && (pc == Finished(Denied) <==>
                  s.pc.Resolving? && e.Replied? && e.reply.Answered? && (!s.pc.accepted || e.reply.state.None?))
  {
  }

  /** Whatever the gate awaits may answer in any way, and the rest of the system goes on as it likes. */
  lemma AnswersMayCome(s: State, reply: Reply, decision: Decision, event: ChangeSignal.Event)
    ensures s.pc.NotStarted? ==> Enabled(s, Start)
    ensures s.pc.Resolving? || s.pc == Querying(ClientsChanged) ==> Enabled(s, Replied(reply))
    ensures s.pc == Querying(Launch) && reply != Answered(None) ==> Enabled(s, Replied(reply))
    ensures s.pc.Deciding? ==> Enabled(s, Decided(decision))
    ensures Enabled(s, Other(event))
  {
  }

  /** When the gate asks the launcher: at the start, and after each wait that no abort ended. */
  lemma AsksExactly(states: seq<State>, events: seq<Event>, k: nat)
    requires Run(states, events) && k < |events| && !events[k].Other?
    ensures var s, e, pc := states[k], events[k], states[k + 1].pc;
            && (pc == Querying(Launch) <==> e == Start && !(s.owner.Some? && s.owner.value in s.signal.aborted))
            && (pc == Querying(ClientsChanged) <==>
                  s.pc.Parked? && e == Wake && s.pc.wait < |s.signal.waits|
                  && s.signal.waits[s.pc.wait].outcome == ChangeSignal.Resolved)
            && pc != NotStarted
            && (pc.Resolving? <==> e == Decided(Accept) || e == Decided(Deny))
  {
    assert Enabled(states[k], events[k]);
  }

  /** The launcher is told the person's own decision on the approvals asked for, and a denial leads to nothing else. */
  lemma {:induction false} DecisionIsKept(states: seq<State>, events: seq<Event>, d: nat, k: nat)
    requires Run(states, events) && d < k <= |events| && events[d].Decided?
    ensures var decision, count := events[d].decision, states[d].pc.count;
            && (decision == Accept ==> states[d + 1].pc == Resolving(count, true))
            && (decision == Deny ==>
                  states[d + 1].pc == Resolving(count, false)
                  && (states[k].pc == Resolving(count, false)
                      || states[k].pc == Finished(Denied) || states[k].pc == Finished(Failed)))
            && (decision == Interrupted ==> states[k].pc == Finished(Failed))
    decreases k
  {
    if d + 1 < k {
      DecisionIsKept(states, events, d, k - 1);
    }
  }

  // --------------------------------------------------------------- class

  class Gate {
    const changes: ChangeSignal.Signal
    const owner: Option<nat>
    var pc: Pc
    var seen: int
    var askedAt: int
    var approvalsResolved: nat

    function View(): State
      reads this, changes
    {
      State(changes.View(), owner, pc, seen, askedAt, approvalsResolved)
    }

    ghost predicate Valid()
      reads this, changes
    {
      Inv(View())
    }

    constructor (changes: ChangeSignal.Signal, owner: Option<nat>)
      requires changes.View() == ChangeSignal.Init()
      ensures Valid() && View() == Init(owner) && this.changes == changes
    {
      this.changes := changes;
      this.owner := owner;
      pc, seen, askedAt, approvalsResolved := NotStarted, 0, 0, 0;
    }

    method AskLauncher(next: Pc)
      modifies this
      ensures View() == Ask(old(View()), next)
    {
      seen := changes.Revision();
      askedAt := seen;
      pc := next;
    }

    method Turn(launch: LaunchState)
      requires changes.Valid()
      modifies this`pc, changes
      ensures View() == Dispatch(old(View()), launch)
    {
      if owner.Some? && owner.value in changes.aborted {
        pc := Finished(Failed);
        return;
      }
      match launch {
        case Ready => pc := Finished(Launched);
        case Unavailable => pc := Finished(NotAvailable);
        case ApprovalRequired(count) => pc := Deciding(count);
        case Preparing =>
          var wait := changes.BeginWait(seen, owner);
          pc := Parked(wait.value);
      }
    }

    method Run()
      requires Valid() && Enabled(View(), Start)
      modifies this
      ensures Valid() && View() == Step(old(View()), Start)
    {
      StepKeepsInv(View(), Start);
      AskLauncher(Querying(Launch));
      if owner.Some? && owner.value in changes.aborted {
        pc := Finished(Failed);
      }
    }

    method AfterReply(reply: Reply)
      requires Valid() && Enabled(View(), Replied(reply))
      modifies this, changes
      ensures Valid() && View() == Step(old(View()), Replied(reply))
    {
      StepKeepsInv(View(), Replied(reply));
      if reply.Threw? {
        pc := Finished(Failed);
        return;
      }
      if pc.Resolving? {
        if !pc.accepted || reply.state == None {
          pc := Finished(Denied);
          return;
        }
        approvalsResolved := approvalsResolved + pc.count;
        Turn(reply.state.value);
      } else {
        Turn(if reply.state.Some? then reply.state.value else Preparing);
      }
    }

    method AfterDecision(decision: Decision)
      requires Valid() && Enabled(View(), Decided(decision))
      modifies this
      ensures Valid() && View() == Step(old(View()), Decided(decision))
    {
      StepKeepsInv(View(), Decided(decision));
      if decision == Interrupted {
        pc := Finished(Failed);
        return;
      }
      AskLauncher(Resolving(pc.count, decision == Accept));
    }

    method AfterWait()
      requires Valid() && Enabled(View(), Wake)
      modifies this
      ensures Valid() && View() == Step(old(View()), Wake)
    {
      StepKeepsInv(View(), Wake);
      if changes.waits[pc.wait].outcome == ChangeSignal.Rejected {
        pc := Finished(Failed);
        return;
      }
      AskLauncher(Querying(ClientsChanged));
    }
  }
}
