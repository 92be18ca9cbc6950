/**
 Model of the connect coalescer: overlapping pairing requests share the active
 operation, and a fresh one starts only after the active one reports failure.

 A caller runs without interruption until its next `await`.  The environment
 chooses when a request arrives, when an operation settles, and which caller
 whose awaited promise has settled resumes next.
 */
module ConnectCoalescer {
  import opened Results

  datatype Outcome = Returned(success: bool) | Threw

  datatype Op = Running | Settled(outcome: Outcome)

  datatype Pc = Fresh | Awaiting(op: nat) | Owning(op: nat) | Done(answer: Outcome)

  /**
   `observed` lists the operations the caller awaited, `own` is the one it
   started, and `atCall` counts the successes there were when it arrived.
   */
  datatype Caller = Caller(pc: Pc, observed: seq<nat>, own: Option<nat>, atCall: nat)

  datatype State = State(active: Option<nat>, ops: seq<Op>, callers: seq<Caller>)

  datatype Event = Call | Settle(op: nat, outcome: Outcome) | Wake(caller: nat)

  function Successes(ops: seq<Op>): nat {
    if ops == [] then 0
    else
      var n := |ops| - 1;
      Successes(ops[..n]) + if ops[n] == Settled(Returned(true)) then 1 else 0
  }

  function Init(): State {
    State(None, [], [])
  }

  predicate Enabled(s: State, e: Event) {
    match e
    case Call => true
    case Settle(o, _) => o < |s.ops| && s.ops[o].Running?
    case Wake(c) =>
      c < |s.callers| &&
      match s.callers[c].pc
      case Awaiting(o) => o < |s.ops| && s.ops[o].Settled?
      case Owning(o) => o < |s.ops| && s.ops[o].Settled?
      case _ => false
  }

  /** The code after the loop: start an operation and make it the active one. */
  function Start(s: State, c: nat): State
    requires c < |s.callers|
  {
    var o := |s.ops|;
    s.(active := Some(o), ops := s.ops + [Running],
       callers := s.callers[c := s.callers[c].(pc := Owning(o), own := Some(o))])
  }

  /** The head of the loop. */
  function Enter(s: State, c: nat): State
    requires c < |s.callers|
  {
    match s.active
    case Some(o) =>
      s.(callers := s.callers[c := s.callers[c].(pc := Awaiting(o), observed := s.callers[c].observed + [o])])
    case None => Start(s, c)
  }

  function Finish(s: State, c: nat, answer: Outcome): State
    requires c < |s.callers|
  {
    s.(callers := s.callers[c := s.callers[c].(pc := Done(answer))])
  }

  function Step(s: State, e: Event): State
    requires Enabled(s, e)
  {
    match e
    case Call =>
      Enter(s.(callers := s.callers + [Caller(Fresh, [], None, Successes(s.ops))]), |s.callers|)
    case Settle(o, outcome) =>
      s.(ops := s.ops[o := Settled(outcome)])
    case Wake(c) =>
      match s.callers[c].pc
      case Awaiting(o) =>
        (match s.ops[o].outcome
         case Returned(true) => Finish(s, c, Returned(true))
         case Threw => Finish(s, c, Threw)
         case Returned(false) => if s.active == Some(o) then Start(s, c) else Enter(s, c))
      case Owning(o) =>
        Finish(if s.active == Some(o) then s.(active := None) else s, c, s.ops[o].outcome)
  }

  // ----------------------------------------------------------- invariant

  /** The active operation, and no other, may be unsettled; its owner will clear it. */
  ghost predicate ActiveExact(s: State) {
    && (forall o | 0 <= o < |s.ops| && s.ops[o].Running? :: s.active == Some(o))
    && (s.active.Some? ==> s.active.value < |s.ops|)
    && (s.active.Some? ==> exists c | 0 <= c < |s.callers| :: s.callers[c].pc == Owning(s.active.value))
  }

  ghost predicate Failed(s: State, o: nat) {
    o < |s.ops| && s.ops[o] == Settled(Returned(false))
  }

  ghost predicate AllFailed(s: State, ops: seq<nat>) {
    forall i | 0 <= i < |ops| :: Failed(s, ops[i])
  }

  /** What one caller's history says about the operations it dealt with. */
  ghost predicate CallerOk(s: State, k: Caller) {
    match k.own
    case Some(o) =>
      && o < |s.ops| && AllFailed(s, k.observed)
      && (k.pc == Owning(o) || (k.pc.Done? && s.ops[o] == Settled(k.pc.answer)))
    case None =>
      && |k.observed| > 0
      && AllFailed(s, k.observed[..|k.observed| - 1])
      && var last := k.observed[|k.observed| - 1];
         last < |s.ops|
         && (k.pc == Awaiting(last)
             || (k.pc.Done? && k.pc.answer != Returned(false) && s.ops[last] == Settled(k.pc.answer)))
  }

  ghost predicate Inv(s: State) {
    && ActiveExact(s)
    && (forall c | 0 <= c < |s.callers| :: CallerOk(s, s.callers[c]))
    && (forall c, d | 0 <= c < d < |s.callers| && s.callers[c].own.Some? :: s.callers[c].own != s.callers[d].own)
  }

  lemma StepKeepsCaller(s: State, e: Event, d: nat)
    requires Inv(s) && Enabled(s, e) && d < |s.callers|
    requires !(e.Wake? && e.caller == d)
    ensures Step(s, e).callers[d] == s.callers[d]
    ensures CallerOk(Step(s, e), s.callers[d])
  {
    var s' := Step(s, e);
    assert CallerOk(s, s.callers[d]);
    assert forall o | 0 <= o < |s.ops| && s.ops[o].Settled? :: s'.ops[o] == s.ops[o];
  }

  lemma CallMakesCaller(s: State)
    requires Inv(s)
    ensures var s' := Step(s, Call);
            |s'.callers| == |s.callers| + 1 && CallerOk(s', s'.callers[|s.callers|])
  {
  }

  /** A caller whose observed operation failed either starts its own or observes the active one. */
  lemma RetryKeepsCaller(s: State, c: nat)
    requires Inv(s) && Enabled(s, Wake(c))
    requires s.callers[c].pc.Awaiting? && Failed(s, s.callers[c].pc.op)
    ensures CallerOk(Step(s, Wake(c)), Step(s, Wake(c)).callers[c])
  {
    var s' := Step(s, Wake(c));
    var k, k' := s.callers[c], s'.callers[c];
    assert CallerOk(s, k);
    assert forall o | 0 <= o < |s.ops| :: s'.ops[o] == s.ops[o];
    assert k.observed == k.observed[..|k.observed| - 1] + [k.pc.op];
    assert AllFailed(s', k.observed);
    if k'.own.None? {
      assert k'.observed[..|k'.observed| - 1] == k.observed;
    }
  }

  lemma WakeKeepsCaller(s: State, c: nat)
    requires Inv(s) && Enabled(s, Wake(c))
    ensures CallerOk(Step(s, Wake(c)), Step(s, Wake(c)).callers[c])
  {
    assert CallerOk(s, s.callers[c]);
    if s.callers[c].pc.Awaiting? && Failed(s, s.callers[c].pc.op) {
      RetryKeepsCaller(s, c);
    }
  }

  lemma StepKeepsActive(s: State, e: Event)
    requires Inv(s) && Enabled(s, e)
    ensures ActiveExact(Step(s, e))
  {
    var s' := Step(s, e);
    if e.Wake? {
      assert CallerOk(s, s.callers[e.caller]);
    }
    if s'.active.Some? {
      if s'.active == s.active {
        var c :| 0 <= c < |s.callers| && s.callers[c].pc == Owning(s.active.value);
        if !(e.Wake? && e.caller == c) {
          StepKeepsCaller(s, e, c);
          assert s'.callers[c].pc == Owning(s'.active.value);
        }
      } else {
        var c := if e.Wake? then e.caller else |s.callers|;
        assert s'.callers[c].pc == Owning(s'.active.value);
      }
    }
  }

  lemma StepKeepsOwners(s: State, e: Event)
    requires Inv(s) && Enabled(s, e)
    ensures var s' := Step(s, e);
            forall c, d | 0 <= c < d < |s'.callers| && s'.callers[c].own.Some? :: s'.callers[c].own != s'.callers[d].own
  {
    assert forall c | 0 <= c < |s.callers| :: CallerOk(s, s.callers[c]);
  }

  lemma StepMakesCallerOk(s: State, e: Event, c: nat)
    requires Inv(s) && Enabled(s, e) && c < |Step(s, e).callers|
    ensures CallerOk(Step(s, e), Step(s, e).callers[c])
  {
    if c == |s.callers| {
      CallMakesCaller(s);
    } else if e == Wake(c) {
      WakeKeepsCaller(s, c);
    } else {
      StepKeepsCaller(s, e, c);
    }
  }

  lemma StepKeepsInv(s: State, e: Event)
    requires Inv(s) && Enabled(s, e)
    ensures Inv(Step(s, e))
  {
    StepKeepsActive(s, e);
    StepKeepsOwners(s, e);
    forall c | 0 <= c < |Step(s, e).callers| ensures CallerOk(Step(s, e), Step(s, e).callers[c]) {
      StepMakesCallerOk(s, e, c);
    }
  }

  // ---------------------------------------------------------------- runs

  /** One interleaving of requests, settlements and wake-ups. */
  ghost predicate Run(states: seq<State>, events: seq<Event>) {
    && |states| == |events| + 1
    && states[0] == Init()
    && forall i | 0 <= i < |events| ::
         Enabled(states[i], events[i]) && states[i + 1] == Step(states[i], events[i])
  }

  lemma {:induction false} RunKeepsInv(states: seq<State>, events: seq<Event>, i: nat)
    requires Run(states, events) && i <= |events|
    ensures Inv(states[i])
  {
    if i > 0 {
      RunKeepsInv(states, events, i - 1);
      StepKeepsInv(states[i - 1], events[i - 1]);
    }
  }

  lemma AtMostOneUnsettled(states: seq<State>, events: seq<Event>, i: nat, o: nat, p: nat)
    requires Run(states, events) && i <= |events|
    requires o < |states[i].ops| && states[i].ops[o].Running?
    requires p < |states[i].ops| && states[i].ops[p].Running?
    ensures o == p
  {
    RunKeepsInv(states, events, i);
  }

  lemma StepKeepsOwn(s: State, e: Event, c: nat)
    requires Inv(s) && Enabled(s, e) && c < |s.callers| && s.callers[c].own.Some?
    ensures c < |Step(s, e).callers| && Step(s, e).callers[c].own == s.callers[c].own
  {
    assert CallerOk(s, s.callers[c]);
  }

  /** A caller's own operation is never replaced by another, and no two callers share one. */
  lemma {:induction false} StartsAtMostOne(states: seq<State>, events: seq<Event>, i: nat, j: nat, c: nat, d: nat)
    requires Run(states, events) && i <= j <= |events|
    requires c < |states[i].callers| && states[i].callers[c].own.Some?
    ensures c < |states[j].callers| && states[j].callers[c].own == states[i].callers[c].own
    ensures d < |states[j].callers| && states[j].callers[d].own == states[i].callers[c].own ==> d == c
    decreases j
  {
    if i < j {
      StartsAtMostOne(states, events, i, j - 1, c, d);
      OwnStays(states, events, j - 1, c);
    }
    OwnersDiffer(states, events, j, c, d);
  }

  lemma OwnStays(states: seq<State>, events: seq<Event>, j: nat, c: nat)
    requires Run(states, events) && j < |events|
    requires c < |states[j].callers| && states[j].callers[c].own.Some?
    ensures c < |states[j + 1].callers| && states[j + 1].callers[c].own == states[j].callers[c].own
  {
    RunKeepsInv(states, events, j);
    StepKeepsOwn(states[j], events[j], c);
  }

  lemma OwnersDiffer(states: seq<State>, events: seq<Event>, j: nat, c: nat, d: nat)
    requires Run(states, events) && j <= |events|
    requires c < |states[j].callers| && states[j].callers[c].own.Some?
    ensures d < |states[j].callers| && states[j].callers[d].own == states[j].callers[c].own ==> d == c
  {
    RunKeepsInv(states, events, j);
  }

  /** Callers may come at any time, and a running operation may settle in any way. */
  lemma AnswersMayCome(s: State, o: nat, outcome: Outcome)
    requires o < |s.ops|
    ensures Enabled(s, Call)
    ensures s.ops[o].Running? ==> Enabled(s, Settle(o, outcome))
  {
  }

  /** A caller's operations come one after the other, its own last. */
  ghost predicate CallerInOrder(k: Caller, started: nat) {
    && (forall i, j | 0 <= i < j < |k.observed| :: k.observed[i] < k.observed[j])
    && (forall o | o in k.observed :: o < started)
    && (k.own.Some? ==> k.own.value < started && forall o | o in k.observed :: o < k.own.value)
  }

  ghost predicate InOrder(s: State) {
    && (s.active.Some? ==> s.active.value == |s.ops| - 1)
    && forall c | 0 <= c < |s.callers| :: CallerInOrder(s.callers[c], |s.ops|)
  }

  lemma RetryKeepsOrder(s: State, c: nat)
    requires Inv(s) && InOrder(s) && Enabled(s, Wake(c))
    requires s.callers[c].pc.Awaiting? && Failed(s, s.callers[c].pc.op)
    ensures CallerInOrder(Step(s, Wake(c)).callers[c], |Step(s, Wake(c)).ops|)
  {
    var k := s.callers[c];
    assert CallerOk(s, k) && CallerInOrder(k, |s.ops|);
    assert k.observed[|k.observed| - 1] == k.pc.op;
  }

  lemma CallKeepsOrder(s: State)
    requires Inv(s) && InOrder(s)
    ensures CallerInOrder(Step(s, Call).callers[|s.callers|], |Step(s, Call).ops|)
  {
  }

  lemma CallerKeepsOrder(s: State, e: Event, c: nat)
    requires Inv(s) && InOrder(s) && Enabled(s, e) && c < |s.callers|
    ensures CallerInOrder(Step(s, e).callers[c], |Step(s, e).ops|)
  {
    assert CallerInOrder(s.callers[c], |s.ops|);
    if e == Wake(c) {
      if s.callers[c].pc.Awaiting? && Failed(s, s.callers[c].pc.op) {
        RetryKeepsOrder(s, c);
      }
    } else {
      StepKeepsCaller(s, e, c);
    }
  }

  lemma StepKeepsOrder(s: State, e: Event)
    requires Inv(s) && InOrder(s) && Enabled(s, e)
    ensures InOrder(Step(s, e))
  {
    forall c | 0 <= c < |Step(s, e).callers| ensures CallerInOrder(Step(s, e).callers[c], |Step(s, e).ops|) {
      if c == |s.callers| {
        CallKeepsOrder(s);
      } else {
        CallerKeepsOrder(s, e, c);
      }
    }
  }

  lemma {:induction false} RunKeepsOrder(states: seq<State>, events: seq<Event>, i: nat)
    requires Run(states, events) && i <= |events|
    ensures InOrder(states[i])
  {
    if i > 0 {
      RunKeepsOrder(states, events, i - 1);
      RunKeepsInv(states, events, i - 1);
      StepKeepsOrder(states[i - 1], events[i - 1]);
    }
  }

  /** A caller awaits no operation twice, and starts its own after all it awaited. */
  lemma AwaitsNoneTwice(states: seq<State>, events: seq<Event>, i: nat, c: nat)
    requires Run(states, events) && i <= |events| && c < |states[i].callers|
    ensures var k := states[i].callers[c];
            && (forall a, b | 0 <= a < b < |k.observed| :: k.observed[a] < k.observed[b])
            && (k.own.Some? ==> forall o | o in k.observed :: o < k.own.value)
  {
    RunKeepsOrder(states, events, i);
    assert CallerInOrder(states[i].callers[c], |states[i].ops|);
  }

  /** What an answer means to the caller that receives it. */
  lemma AnswersAreWarranted(states: seq<State>, events: seq<Event>, i: nat, c: nat)
    requires Run(states, events) && i <= |events| && c < |states[i].callers|
    ensures var s, k := states[i], states[i].callers[c];
            && (k.own.Some? ==> forall o | o in k.observed :: Failed(s, o))
            && (k.own.Some? && k.pc.Done? ==>
                  k.own.value < |s.ops| && s.ops[k.own.value] == Settled(k.pc.answer))
            && (k.own.None? && k.pc.Done? ==>
                  && k.pc.answer != Returned(false)
                  && exists o | o in k.observed :: o < |s.ops| && s.ops[o] == Settled(k.pc.answer))
  {
    RunKeepsInv(states, events, i);
    var s, k := states[i], states[i].callers[c];
    assert CallerOk(s, k);
    if k.own.None? && k.pc.Done? {
      assert k.observed[|k.observed| - 1] in k.observed;
    }
  }

  /** Nobody is left behind: with nothing running or waking, every caller has its answer. */
  lemma QuiescentMeansAnswered(states: seq<State>, events: seq<Event>, i: nat)
    requires Run(states, events) && i <= |events|
    requires forall o | 0 <= o < |states[i].ops| :: states[i].ops[o].Settled?
    requires forall c | 0 <= c < |states[i].callers| :: !Enabled(states[i], Wake(c))
    ensures states[i].active == None
    ensures forall c | 0 <= c < |states[i].callers| :: states[i].callers[c].pc.Done?
  {
    RunKeepsInv(states, events, i);
    forall c | 0 <= c < |states[i].callers| ensures states[i].callers[c].pc.Done? {
      assert CallerOk(states[i], states[i].callers[c]);
      assert !Enabled(states[i], Wake(c));
    }
  }

  // --------------------------------------- one success satisfies everyone

  /** No success was reported between a caller's arrival and its start of an own operation. */
  ghost predicate Current(s: State, k: Caller) {
    k.pc.Awaiting? && k.pc.op < |s.ops| && s.ops[k.pc.op] != Settled(Returned(true)) ==>
      Successes(s.ops) == k.atCall
  }

  lemma {:induction false} SettlingCounts(ops: seq<Op>, o: nat, outcome: Outcome)
    requires o < |ops| && ops[o].Running?
    ensures Successes(ops[o := Settled(outcome)]) == Successes(ops) + if outcome == Returned(true) then 1 else 0
  {
    var n := |ops| - 1;
    if o == n {
      assert ops[o := Settled(outcome)][..n] == ops[..n];
    } else {
      assert ops[o := Settled(outcome)][..n] == ops[..n][o := Settled(outcome)];
      SettlingCounts(ops[..n], o, outcome);
    }
  }

  lemma StartingDoesNotCount(ops: seq<Op>)
    ensures Successes(ops + [Running]) == Successes(ops)
  {
    assert (ops + [Running])[..|ops|] == ops;
  }

  lemma SettleKeepsCurrent(s: State, o: nat, outcome: Outcome, c: nat)
    requires Inv(s) && Enabled(s, Settle(o, outcome)) && c < |s.callers|
    requires Current(s, s.callers[c])
    requires s.callers[c].pc.Awaiting? ==> !Enabled(s, Wake(c))
    ensures Current(Step(s, Settle(o, outcome)), s.callers[c])
  {
    SettlingCounts(s.ops, o, outcome);
    assert CallerOk(s, s.callers[c]);
    if s.callers[c].pc.Awaiting? {
      assert s.active == Some(o) == Some(s.callers[c].pc.op);
    }
  }

  lemma ResumeCounts(s: State, e: Event)
    requires Enabled(s, e) && !e.Settle?
    ensures Successes(Step(s, e).ops) == Successes(s.ops)
    ensures Step(s, e).ops == s.ops || Step(s, e).ops == s.ops + [Running]
  {
    StartingDoesNotCount(s.ops);
  }

  lemma WakeKeepsCurrent(s: State, c: nat)
    requires Inv(s) && Enabled(s, Wake(c)) && Current(s, s.callers[c])
    ensures Current(Step(s, Wake(c)), Step(s, Wake(c)).callers[c])
  {
    ResumeCounts(s, Wake(c));
    assert CallerOk(s, s.callers[c]);
  }

  lemma ResumeKeepsCurrent(s: State, e: Event, c: nat)
    requires Inv(s) && Enabled(s, e) && !e.Settle?
    requires c < |Step(s, e).callers|
    requires c < |s.callers| ==> Current(s, s.callers[c])
    ensures Current(Step(s, e), Step(s, e).callers[c])
  {
    ResumeCounts(s, e);
    if e == Wake(c) {
      WakeKeepsCurrent(s, c);
    } else if c < |s.callers| {
      assert CallerOk(s, s.callers[c]);
      StepKeepsCaller(s, e, c);
    }
  }

  /** A caller that starts its operation in this step keeps what it saw when it asked. */
  lemma StartKeepsArrival(s: State, e: Event, c: nat)
    requires Inv(s) && Enabled(s, e) && c < |s.callers| && s.callers[c].own.None?
    requires Step(s, e).callers[c].own.Some? && Current(s, s.callers[c])
    ensures Successes(s.ops) == Step(s, e).callers[c].atCall
  {
    assert CallerOk(s, s.callers[c]);
  }

  // --------------------------------------------------------------- class

  class Coalescer {
    var active: Option<nat>
    var ops: seq<Op>
    var callers: seq<Caller>

    function View(): State
      reads this
    {
      State(active, ops, callers)
    }

    ghost predicate Valid()
      reads this
    {
      Inv(View())
    }

    constructor ()
      ensures Valid() && View() == Init()
    {
      active, ops, callers := None, [], [];
    }

    method StartOperation(c: nat)
      requires c < |callers|
      modifies this
      ensures View() == Start(old(View()), c)
    {
      var operation := |ops|;
      ops := ops + [Running];
      active := Some(operation);
      callers := callers[c := callers[c].(pc := Owning(operation), own := Some(operation))];
    }

    method EnterLoop(c: nat)
      requires c < |callers|
      modifies this
      ensures View() == Enter(old(View()), c)
    {
      if active.Some? {
        var observed := active.value;
        callers := callers[c := callers[c].(pc := Awaiting(observed), observed := callers[c].observed + [observed])];
      } else {
        StartOperation(c);
      }
    }

    method Request() returns (c: nat)
      requires Valid()
      modifies this
      ensures Valid() && View() == Step(old(View()), Call) && c == |old(callers)|
    {
      StepKeepsInv(View(), Call);
      c := |callers|;
      callers := callers + [Caller(Fresh, [], None, Successes(ops))];
      EnterLoop(c);
    }

    method OperationSettled(o: nat, outcome: Outcome)
      requires Valid() && Enabled(View(), Settle(o, outcome))
      modifies this
      ensures Valid() && View() == Step(old(View()), Settle(o, outcome))
    {
      StepKeepsInv(View(), Settle(o, outcome));
      ops := ops[o := Settled(outcome)];
    }

    method Resume(c: nat)
      requires Valid() && Enabled(View(), Wake(c))
      modifies this
      ensures Valid() && View() == Step(old(View()), Wake(c))
    {
      StepKeepsInv(View(), Wake(c));
      match callers[c].pc {
        case Awaiting(observed) =>
          if ops[observed].outcome == Returned(false) {
            if active != Some(observed) {
              EnterLoop(c);
            } else {
              StartOperation(c);
            }
          } else {
            callers := callers[c := callers[c].(pc := Done(ops[observed].outcome))];
          }
        case Owning(operation) =>
          if active == Some(operation) {
            active := None;
          }
          callers := callers[c := callers[c].(pc := Done(ops[operation].outcome))];
      }
    }
  }
}
