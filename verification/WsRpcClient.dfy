/**
 Model of the WebSocket RPC client's ownership of its transports.

 `attempts`, `transports` and `retirements` are the promises and objects the
 client's fields refer to, each list in creation order.  An event is the code
 between two awaits of `connect`, `close`, `retireTransport` or the rejection
 handler of `ensureConnected`; the environment orders the events.
 */
module WsRpcClient {
  import opened Results

  /** A `connect()` call; `Failed` until its rejection handler has run. */
  datatype Attempt =
    | Importing
    | Handshaking(transport: nat)
    | Retiring(transport: nat, retirement: nat)
    | Failed
    | Rejected
    | Ready(transport: nat)

  datatype Phase = Scheduled | Closing | Settled

  /** The promise `Promise.resolve().then(() => transport?.close())`. */
  datatype Retirement = Retirement(target: Option<nat>, phase: Phase)

  datatype Close = NotClosing | Joining(retirement: nat, attempt: Option<nat>) | Closed

  /** `transports[t]` counts how often close() was started on transport `t`. */
  datatype State = State(
    aborted: bool,
    transport: Option<nat>,
    retirement: Option<nat>,
    closed: bool,
    closing: Close,
    connected: Option<nat>,
    attempts: seq<Attempt>,
    transports: seq<nat>,
    retirements: seq<Retirement>)

  datatype Event =
    | EnsureConnected
    | Imported(a: nat, ok: bool)
    | HandshakeDone(a: nat, ok: bool)
    | RetirementRuns(r: nat)
    | RetirementSettles(r: nat)
    | Retired(a: nat)
    | HandleRejection(a: nat)
    | CallClose
    | CloseSettles
    | Abort

  /** A new client; its signal may already be aborted. */
  function Init(aborted: bool): State {
    State(aborted, None, None, false, NotClosing, None, [], [], [])
  }

  predicate Enabled(s: State, e: Event) {
    match e
    case EnsureConnected => true
    case Imported(a, _) => a < |s.attempts| && s.attempts[a].Importing?
    case HandshakeDone(a, _) => a < |s.attempts| && s.attempts[a].Handshaking?
    case RetirementRuns(r) => r < |s.retirements| && s.retirements[r].phase == Scheduled
    case RetirementSettles(r) => r < |s.retirements| && s.retirements[r].phase == Closing
    case Retired(a) =>
      a < |s.attempts| && s.attempts[a].Retiring?
      && s.attempts[a].retirement < |s.retirements| && s.retirements[s.attempts[a].retirement].phase == Settled
    case HandleRejection(a) => a < |s.attempts| && s.attempts[a].Failed?
    case CallClose => true
    case CloseSettles =>
      s.closing.Joining?
      && s.closing.retirement < |s.retirements| && s.retirements[s.closing.retirement].phase == Settled
      && (s.closing.attempt.Some? ==>
            s.closing.attempt.value < |s.attempts|
            && (s.attempts[s.closing.attempt.value].Ready? || s.attempts[s.closing.attempt.value].Rejected?))
    case Abort => !s.aborted
  }

  /** `retireTransport()`: the retirement in force, or a new one for the current transport. */
  function Retire(s: State): (State, nat) {
    match s.retirement
    case Some(r) => (s, r)
    case None =>
      var r := |s.retirements|;
      (s.(retirement := Some(r), retirements := s.retirements + [Retirement(s.transport, Scheduled)]), r)
  }

  function Become(s: State, a: nat, attempt: Attempt): State
    requires a < |s.attempts|
  {
    s.(attempts := s.attempts[a := attempt])
  }

  function BeginClose(s: State): State {
    if s.closing != NotClosing then s
    else
      var (s', r) := Retire(s.(closed := true));
      s'.(closing := Joining(r, s.connected))
  }

  function Step(s: State, e: Event): State
    requires Enabled(s, e)
  {
    match e
    case EnsureConnected =>
      if s.aborted || s.closed || s.connected.Some? then s
      else s.(connected := Some(|s.attempts|), attempts := s.attempts + [Importing])
    case Imported(a, ok) =>
      if !ok || s.aborted || s.closed then Become(s, a, Failed)
      else
        Become(s.(transport := Some(|s.transports|), transports := s.transports + [0], retirement := None),
               a, Handshaking(|s.transports|))
    case HandshakeDone(a, ok) =>
      if !ok then
        var (s', r) := Retire(s);
        Become(s', a, Retiring(s.attempts[a].transport, r))
      else if s.aborted || s.closed then Become(s, a, Failed)
      else Become(s, a, Ready(s.attempts[a].transport))
    case RetirementRuns(r) =>
      (match s.retirements[r].target
       case Some(t) =>
         s.(retirements := s.retirements[r := s.retirements[r].(phase := Closing)],
            transports := if t < |s.transports| then s.transports[t := s.transports[t] + 1] else s.transports)
       case None => s.(retirements := s.retirements[r := s.retirements[r].(phase := Settled)]))
    case RetirementSettles(r) => s.(retirements := s.retirements[r := s.retirements[r].(phase := Settled)])
    case Retired(a) => Become(s, a, Failed)
    case HandleRejection(a) => Become(s, a, Rejected).(connected := None)
    case CallClose => BeginClose(s)
    case CloseSettles => s.(connected := None, closing := Closed)
    case Abort => BeginClose(s.(aborted := true))
  }

  // ----------------------------------------------------------- invariant

  predicate InFlight(a: Attempt) {
    a.Importing? || a.Handshaking? || a.Retiring? || a.Failed?
  }

  /** `connected` is the one attempt that may be unfinished; close() joins it. */
  ghost predicate OneAttempt(s: State) {
    && (forall a | 0 <= a < |s.attempts| && InFlight(s.attempts[a]) :: s.connected == Some(a))
    && (s.connected.Some? ==> s.connected.value < |s.attempts| && !s.attempts[s.connected.value].Rejected?)
    && (s.closed <==> s.closing != NotClosing)
    && (s.closing.Joining? ==>
          && s.retirement == Some(s.closing.retirement)
          && (s.closing.attempt.Some? ==> s.closing.attempt.value < |s.attempts|)
          && (s.connected.Some? ==> s.closing.attempt == s.connected))
    && (s.closing == Closed ==> s.connected == None)
  }

  /** The current transport is the newest one; a retirement in force is its own. */
  ghost predicate CurrentIsNewest(s: State) {
    && (s.closing == Closed ==> s.closed)
    && s.transport == (if s.transports == [] then None else Some(|s.transports| - 1))
    && (s.retirement.Some? ==>
          s.retirement.value < |s.retirements| && s.retirements[s.retirement.value].target == s.transport)
    && (s.closed ==> s.retirement.Some?)
    && (s.aborted && !s.closed ==> s.attempts == [])
    && (s.attempts == [] ==> s.transports == [])
    && (s.closing == Closed ==> s.retirements[s.retirement.value].phase == Settled)
  }

  ghost predicate AttemptOk(s: State, k: Attempt) {
    match k
    case Handshaking(t) => s.transport == Some(t) && (s.closed || s.retirement == None)
    case Retiring(t, r) => s.transport == Some(t) && s.retirement == Some(r)
    case Ready(t) => s.transport == Some(t)
    case _ => true
  }

  /** Some retirement of transport `t` has started its close, and none other exists. */
  ghost predicate Retirements(s: State) {
    && (forall r | 0 <= r < |s.retirements| && s.retirements[r].target.Some? ::
          s.retirements[r].target.value < |s.transports|
          && s.transports[s.retirements[r].target.value] == (if s.retirements[r].phase == Scheduled then 0 else 1))
    && (forall q, r | 0 <= q < r < |s.retirements| && s.retirements[q].target.Some? ::
          s.retirements[q].target != s.retirements[r].target)
    && (forall t | 0 <= t < |s.transports| :: s.transports[t] <= 1)
    && (s.retirement == None && s.transports != [] ==> s.transports[|s.transports| - 1] == 0)
    && (s.retirement == None ==>
          forall r | 0 <= r < |s.retirements| && s.retirements[r].target.Some? ::
              s.retirements[r].target != s.transport)
    && (forall t | 0 <= t < |s.transports| - 1 :: s.transports[t] == 1)
  }

  /** While a further attempt may still create a transport, the current one is retired. */
  ghost predicate QuietBeforeNext(s: State) {
    !s.closed && s.transport.Some?
    && (s.connected.Some? && s.connected.value < |s.attempts| ==>
          s.attempts[s.connected.value].Importing? || s.attempts[s.connected.value].Failed?) ==>
      s.retirement.Some? && s.retirement.value < |s.retirements|
      && s.retirements[s.retirement.value].phase == Settled
  }

  ghost predicate Inv(s: State) {
    && OneAttempt(s)
    && CurrentIsNewest(s)
    && (forall a | 0 <= a < |s.attempts| && s.connected == Some(a) :: AttemptOk(s, s.attempts[a]))
    && Retirements(s)
    && QuietBeforeNext(s)
  }

  lemma EnsureConnectedKeepsInv(s: State)
    requires Inv(s) && Enabled(s, EnsureConnected)
    ensures Inv(Step(s, EnsureConnected))
  {
  }

  /** A new transport is retired by nobody yet, and those before it all are. */
  lemma CreationKeepsRetirements(s: State, a: nat)
    requires Inv(s) && Enabled(s, Imported(a, true)) && !s.aborted && !s.closed
    ensures Retirements(Step(s, Imported(a, true)))
  {
    assert s.connected == Some(a);
  }

  lemma CreationKeepsInv(s: State, a: nat)
    requires Inv(s) && Enabled(s, Imported(a, true)) && !s.aborted && !s.closed
    ensures Inv(Step(s, Imported(a, true)))
  {
    CreationKeepsRetirements(s, a);
    var t := Step(s, Imported(a, true));
    assert OneAttempt(t) && CurrentIsNewest(t);
  }

  lemma FailedImportKeepsInv(s: State, a: nat, ok: bool)
    requires Inv(s) && Enabled(s, Imported(a, ok)) && (!ok || s.aborted || s.closed)
    ensures Inv(Step(s, Imported(a, ok)))
  {
  }

  lemma ImportedKeepsInv(s: State, a: nat, ok: bool)
    requires Inv(s) && Enabled(s, Imported(a, ok))
    ensures Inv(Step(s, Imported(a, ok)))
  {
    if !ok || s.aborted || s.closed {
      FailedImportKeepsInv(s, a, ok);
    } else {
      CreationKeepsInv(s, a);
    }
  }

  /** A handshaking attempt that waits for its transport's retirement is still the one attempt. */
  lemma RetiringKeepsInv(s: State, t: State, a: nat, r: nat)
    requires Inv(s) && a < |s.attempts| && s.attempts[a].Handshaking?
    requires t == s.(attempts := s.attempts[a := Retiring(s.attempts[a].transport, r)],
                     retirement := Some(r), retirements := t.retirements)
    requires r < |t.retirements| && t.retirements[r].target == s.transport
    requires s.retirement.Some? ==> s.retirement == Some(r) && t.retirements == s.retirements
    requires Retirements(t)
    ensures Inv(t)
  {
    assert AttemptOk(s, s.attempts[a]);
    assert OneAttempt(t);
    assert CurrentIsNewest(t);
    assert QuietBeforeNext(t);
  }

  lemma FailedHandshakeKeepsInv(s: State, a: nat)
    requires Inv(s) && Enabled(s, HandshakeDone(a, false))
    ensures Inv(Step(s, HandshakeDone(a, false)))
  {
    RetireIsExact(s);
    RetiringKeepsInv(s, Step(s, HandshakeDone(a, false)), a, Retire(s).1);
  }

  lemma GoodHandshakeKeepsInv(s: State, a: nat)
    requires Inv(s) && Enabled(s, HandshakeDone(a, true))
    ensures Inv(Step(s, HandshakeDone(a, true)))
  {
    assert AttemptOk(s, s.attempts[a]);
  }

  lemma HandshakeKeepsInv(s: State, a: nat, ok: bool)
    requires Inv(s) && Enabled(s, HandshakeDone(a, ok))
    ensures Inv(Step(s, HandshakeDone(a, ok)))
  {
    if ok {
      GoodHandshakeKeepsInv(s, a);
    } else {
      FailedHandshakeKeepsInv(s, a);
    }
  }

  /** A close starts once: the transport of a scheduled retirement was not closed before. */
  lemma RetirementRunsOnce(s: State, r: nat)
    requires Inv(s) && Enabled(s, RetirementRuns(r))
    ensures Retirements(Step(s, RetirementRuns(r)))
  {
    if s.retirements[r].target.Some? {
      ClosingStartsOnce(s, r, s.retirements[r].target.value);
    }
  }

  lemma ClosingStartsOnce(s: State, r: nat, t: nat)
    requires Inv(s) && Enabled(s, RetirementRuns(r)) && s.retirements[r].target == Some(t)
    ensures t == |s.transports| - 1 && s.transports[t] == 0
    ensures Retirements(Step(s, RetirementRuns(r)))
  {
    var s' := Step(s, RetirementRuns(r));
    assert s.transports[t] == 0;
    assert t == |s.transports| - 1;
    assert s'.transports == s.transports[t := 1];
    assert s'.retirements == s.retirements[r := Retirement(Some(t), Closing)];
    assert forall q | 0 <= q < |s.retirements| && q != r :: s.retirements[q].target != Some(t);
  }

  /** `t` differs from `s` in how far retirements and their closes are, and no retirement is undone. */
  ghost predicate FurtherRetired(s: State, t: State) {
    && t == s.(transports := t.transports, retirements := t.retirements)
    && |t.transports| == |s.transports| && |t.retirements| == |s.retirements|
    && forall q | 0 <= q < |s.retirements| ::
         t.retirements[q].target == s.retirements[q].target
             && (s.retirements[q].phase == Settled ==> t.retirements[q].phase == Settled)
  }

  lemma FurtherRetiredKeepsRest(s: State, t: State)
    requires Inv(s) && FurtherRetired(s, t) && Retirements(t)
    ensures Inv(t)
  {
    assert OneAttempt(t);
    assert CurrentIsNewest(t);
    assert QuietBeforeNext(t);
    forall a | 0 <= a < |t.attempts| && t.connected == Some(a) ensures AttemptOk(t, t.attempts[a]) {
      assert AttemptOk(s, s.attempts[a]);
    }
  }

  lemma RetirementRunsKeepsInv(s: State, r: nat)
    requires Inv(s) && Enabled(s, RetirementRuns(r))
    ensures Inv(Step(s, RetirementRuns(r)))
  {
    RetirementRunsOnce(s, r);
    FurtherRetiredKeepsRest(s, Step(s, RetirementRuns(r)));
  }

  lemma RetirementSettlesKeepsInv(s: State, r: nat)
    requires Inv(s) && Enabled(s, RetirementSettles(r))
    ensures Inv(Step(s, RetirementSettles(r)))
  {
    assert Retirements(Step(s, RetirementSettles(r)));
    FurtherRetiredKeepsRest(s, Step(s, RetirementSettles(r)));
  }

  lemma RetiredKeepsInv(s: State, a: nat)
    requires Inv(s) && Enabled(s, Retired(a))
    ensures Inv(Step(s, Retired(a)))
  {
  }

  lemma RejectionKeepsInv(s: State, a: nat)
    requires Inv(s) && Enabled(s, HandleRejection(a))
    ensures Inv(Step(s, HandleRejection(a)))
  {
  }

  lemma CloseSettlesKeepsInv(s: State)
    requires Inv(s) && Enabled(s, CloseSettles)
    ensures Inv(Step(s, CloseSettles))
  {
  }

  lemma RetireIsExact(s: State)
    requires Inv(s)
    ensures var (s', r) := Retire(s);
            && s'.retirement == Some(r) && r < |s'.retirements| && s'.retirements[r].target == s.transport
            && s' == s.(retirement := Some(r), retirements := s'.retirements)
            && s'.retirements == (if s.retirement.Some? then s.retirements
                                  else s.retirements + [Retirement(s.transport, Scheduled)])
            && Retirements(s')
  {
  }

  lemma BeginCloseIsExact(s: State, aborted: bool)
    requires Inv(s) && s.closing == NotClosing
    ensures var t := BeginClose(s.(aborted := aborted));
            && t.closed && t.retirement.Some? && t.retirement.value < |t.retirements|
            && t.retirements[t.retirement.value].target == s.transport && Retirements(t)
            && (s.retirement.Some? ==> t.retirement == s.retirement && t.retirements == s.retirements)
            && t == s.(aborted := aborted, closed := true, retirement := t.retirement, retirements := t.retirements,
                       closing := Joining(t.retirement.value, s.connected))
  {
    RetireIsExact(s);
  }

  lemma BeginCloseKeepsInv(s: State, aborted: bool)
    requires Inv(s) && (s.aborted ==> aborted)
    ensures Inv(BeginClose(s.(aborted := aborted)))
  {
    if s.closing == NotClosing {
      BeginCloseIsExact(s, aborted);
      var t := BeginClose(s.(aborted := aborted));
      assert OneAttempt(t) && CurrentIsNewest(t);
      forall a | 0 <= a < |t.attempts| && t.connected == Some(a) ensures AttemptOk(t, t.attempts[a]) {
        assert AttemptOk(s, s.attempts[a]);
      }
    }
  }

  lemma StepKeepsInv(s: State, e: Event)
    requires Inv(s) && Enabled(s, e)
    ensures Inv(Step(s, e))
  {
    match e
    case EnsureConnected => EnsureConnectedKeepsInv(s);
    case Imported(a, ok) => ImportedKeepsInv(s, a, ok);
    case HandshakeDone(a, ok) => HandshakeKeepsInv(s, a, ok);
    case RetirementRuns(r) => RetirementRunsKeepsInv(s, r);
    case RetirementSettles(r) => RetirementSettlesKeepsInv(s, r);
    case Retired(a) => RetiredKeepsInv(s, a);
    case HandleRejection(a) => RejectionKeepsInv(s, a);
    case CallClose => BeginCloseKeepsInv(s, s.aborted);
    case CloseSettles => CloseSettlesKeepsInv(s);
    case Abort => BeginCloseKeepsInv(s, true);
  }

  // ---------------------------------------------------------------- runs

  ghost predicate Run(states: seq<State>, events: seq<Event>) {
    && |states| == |events| + 1
    && (states[0] == Init(false) || states[0] == Init(true))
    && forall i | 0 <= i < |events| ::
         Enabled(states[i], events[i]) && states[i + 1] == Step(states[i], events[i])
  }

  lemma {:induction false} RunKeepsInv(states: seq<State>, events: seq<Event>, i: nat)
    requires Run(states, events) && i <= |events|
    ensures Inv(states[i])
  {
    if i > 0 {
      RunKeepsInv(states, events, i - 1);
      StepKeepsInv(states[i - 1], events[i - 1]);
    }
  }

  lemma AtMostOneConnect(states: seq<State>, events: seq<Event>, i: nat, a: nat, b: nat)
    requires Run(states, events) && i <= |events|
    requires a < |states[i].attempts| && InFlight(states[i].attempts[a])
    requires b < |states[i].attempts| && InFlight(states[i].attempts[b])
    ensures a == b && states[i].connected == Some(a)
  {
    RunKeepsInv(states, events, i);
  }

  /** From the moment close begins no transport is created, however the rest is ordered. */
  lemma {:induction false} NoTransportAfterClose(states: seq<State>, events: seq<Event>, i: nat, j: nat)
    requires Run(states, events) && i <= j <= |events| && states[i].closed
    ensures states[j].closed && |states[j].transports| == |states[i].transports|
    decreases j
  {
    if i < j {
      NoTransportAfterClose(states, events, i, j - 1);
    }
  }

  /** Closing the client or aborting its signal begins the close, at the latest, at once. */
  lemma CloseBegins(states: seq<State>, events: seq<Event>, i: nat)
    requires Run(states, events) && i < |events| && (events[i].CallClose? || events[i].Abort?)
    ensures states[i + 1].closed
  {
    RunKeepsInv(states, events, i);
  }

  /** Calls may come at any time, an abort once, and an attempt's import and handshake may end either way. */
  lemma AnswersMayCome(s: State, a: nat, ok: bool)
    requires a < |s.attempts|
    ensures Enabled(s, EnsureConnected) && Enabled(s, CallClose) && (!s.aborted ==> Enabled(s, Abort))
    ensures s.attempts[a].Importing? ==> Enabled(s, Imported(a, ok))
    ensures s.attempts[a].Handshaking? ==> Enabled(s, HandshakeDone(a, ok))
  {
  }

  predicate Closes(e: Event) {
    e.CallClose? || e.Abort?
  }

  lemma StepCloses(s: State, e: Event)
    requires Enabled(s, e) && (s.closing != NotClosing ==> s.closed)
    ensures Step(s, e).closed <==> s.closed || Closes(e)
    ensures Step(s, e).aborted <==> s.aborted || e.Abort?
  {
  }

  /** The client is closed exactly by the calls and aborts there were, and aborted by these or from the start. */
  lemma {:induction false} ClosedExactly(states: seq<State>, events: seq<Event>, i: nat)
    requires Run(states, events) && i <= |events|
    ensures states[i].closed <==> exists k | 0 <= k < i :: Closes(events[k])
    ensures states[i].aborted <==> states[0].aborted || exists k | 0 <= k < i :: events[k].Abort?
  {
    if i > 0 {
      ClosedExactly(states, events, i - 1);
      RunKeepsInv(states, events, i - 1);
      assert Enabled(states[i - 1], events[i - 1]);
      StepCloses(states[i - 1], events[i - 1]);
    }
  }

  /**
   No transport is ever closed twice; once close() has settled, every transport
   ever created has had its close started, and no attempt is left running.
   */
  lemma CloseRetiresEverything(states: seq<State>, events: seq<Event>, i: nat)
    requires Run(states, events) && i <= |events|
    ensures forall t | 0 <= t < |states[i].transports| :: states[i].transports[t] <= 1
    ensures states[i].closing == Closed ==>
              && (forall t | 0 <= t < |states[i].transports| :: states[i].transports[t] == 1)
              && (forall a | 0 <= a < |states[i].attempts| :: !InFlight(states[i].attempts[a]))
  {
    RunKeepsInv(states, events, i);
  }

  // ---------------------------------------------------------- handshakes

  /** Attempt `a` has finished its handshake well at event `k`, with the client neither closed nor aborted. */
  ghost predicate AuthenticatedAt(states: seq<State>, events: seq<Event>, k: nat, a: nat, t: nat) {
    && k < |events| && k < |states| && events[k] == HandshakeDone(a, true)
    && a < |states[k].attempts| && states[k].attempts[a] == Handshaking(t)
    && !states[k].closed && !states[k].aborted
  }

  /** Attempts never disappear, and one that is ready or rejected stays so. */
  lemma {:induction false} AttemptsAreFinal(states: seq<State>, events: seq<Event>, i: nat, j: nat, a: nat)
    requires Run(states, events) && i <= j <= |events| && a < |states[i].attempts|
    ensures a < |states[j].attempts|
    ensures states[i].attempts[a].Ready? || states[i].attempts[a].Rejected? ==>
              states[j].attempts[a] == states[i].attempts[a]
    decreases j
  {
    if i < j {
      AttemptsAreFinal(states, events, i, j - 1, a);
    }
  }

  lemma BecomesReady(s: State, e: Event, a: nat, t: nat)
    requires Enabled(s, e) && a < |Step(s, e).attempts| && Step(s, e).attempts[a] == Ready(t)
    ensures a < |s.attempts|
    ensures s.attempts[a] == Ready(t)
            || (e == HandshakeDone(a, true) && s.attempts[a] == Handshaking(t) && !s.closed && !s.aborted)
  {
  }

  /** Callers get a connection only through a good handshake of its own transport while the client was open. */
  lemma {:induction false} ReadyIsAuthenticated(states: seq<State>, events: seq<Event>, i: nat, a: nat, t: nat)
    returns (k: nat)
    requires Run(states, events) && i <= |events| && a < |states[i].attempts| && states[i].attempts[a] == Ready(t)
    ensures k < i && AuthenticatedAt(states, events, k, a, t)
  {
    k := i - 1;
    var s, e := states[k], events[k];
    assert Enabled(s, e) && states[k + 1] == Step(s, e);
    BecomesReady(s, e, a, t);
    if s.attempts[a] == Ready(t) {
      k := ReadyIsAuthenticated(states, events, k, a, t);
    }
  }

  /** And through every such handshake they do get it. */
  lemma AuthenticatedIsReady(states: seq<State>, events: seq<Event>, k: nat, j: nat, a: nat, t: nat)
    requires Run(states, events) && k < j <= |events| && AuthenticatedAt(states, events, k, a, t)
    ensures a < |states[j].attempts| && states[j].attempts[a] == Ready(t)
  {
    AttemptsAreFinal(states, events, k + 1, j, a);
  }

  /** The attempt is over without a connection, or about to be. */
  ghost predicate Failing(k: Attempt) {
    k.Retiring? || k.Failed? || k.Rejected?
  }

  lemma {:induction false} FailingStays(states: seq<State>, events: seq<Event>, i: nat, j: nat, a: nat)
    requires Run(states, events) && i <= j <= |events| && a < |states[i].attempts| && Failing(states[i].attempts[a])
    ensures a < |states[j].attempts| && Failing(states[j].attempts[a])
    decreases j
  {
    if i < j {
      FailingStays(states, events, i, j - 1, a);
    }
  }

  /**
   A handshake that failed, or came after a close or an abort, never yields a
   connection; behind a failed one the transport of the handshake, which is the
   current one, is being retired.
   */
  lemma FailedHandshakeFails(states: seq<State>, events: seq<Event>, k: nat, j: nat, a: nat, ok: bool)
    requires Run(states, events) && k < j <= |events| && events[k] == HandshakeDone(a, ok)
    requires !ok || states[k].closed || states[k].aborted
    ensures a < |states[j].attempts| && Failing(states[j].attempts[a]) && !states[j].attempts[a].Ready?
    ensures !ok ==>
              var s, s' := states[k], states[k + 1];
              && s'.attempts[a].Retiring? && s'.retirement == Some(s'.attempts[a].retirement)
              && s'.retirement.value < |s'.retirements|
              && s'.retirements[s'.retirement.value].target == Some(s.attempts[a].transport) == s'.transport
  {
    RunKeepsInv(states, events, k);
    RunKeepsInv(states, events, k + 1);
    assert AttemptOk(states[k], states[k].attempts[a]);
    FailingStays(states, events, k + 1, j, a);
  }

  /** A good import on an open client gives its attempt a transport of its own, and no other import gives any. */
  lemma ImportCreatesExactly(states: seq<State>, events: seq<Event>, k: nat, a: nat, ok: bool)
    requires Run(states, events) && k < |events| && events[k] == Imported(a, ok)
    ensures var s, s' := states[k], states[k + 1];
            a < |s'.attempts|
            && if ok && !s.closed && !s.aborted then
                 s'.attempts[a] == Handshaking(|s.transports|) && |s'.transports| == |s.transports| + 1
               else s'.attempts[a] == Failed && s'.transports == s.transports
  {
  }

  /** A call on an open client finds an attempt, its own if there was none; on a closed one it starts none. */
  lemma EnsureConnectsExactly(states: seq<State>, events: seq<Event>, k: nat)
    requires Run(states, events) && k < |events| && events[k] == EnsureConnected
    ensures var s, s' := states[k], states[k + 1];
            && (!s.closed && !s.aborted ==> s'.connected.Some? && s'.connected.value < |s'.attempts|)
            && (|s'.attempts| > |s.attempts| <==> !s.closed && !s.aborted && s.connected.None?)
            && s.attempts <= s'.attempts
  {
    RunKeepsInv(states, events, k);
  }

  // ------------------------------------------------------------ progress

  /** The code that a started attempt, retirement or close still has to go through. */
  predicate Moves(e: Event) {
    !e.EnsureConnected? && !e.CallClose? && !e.Abort?
  }

  /** Joining the attempt and the retirement cannot deadlock: until close() settles something it waits for can go on. */
  lemma CloseIsNeverStuck(states: seq<State>, events: seq<Event>, i: nat) returns (e: Event)
    requires Run(states, events) && i <= |events| && states[i].closing.Joining?
    ensures Moves(e) && Enabled(states[i], e)
  {
    RunKeepsInv(states, events, i);
    e := NextOfClose(states[i]);
  }

  lemma NextOfClose(s: State) returns (e: Event)
    requires Inv(s) && s.closing.Joining?
    ensures Moves(e) && Enabled(s, e)
  {
    var r := s.closing.retirement;
    if s.retirements[r].phase == Scheduled {
      return RetirementRuns(r);
    }
    if s.retirements[r].phase == Closing {
      return RetirementSettles(r);
    }
    if s.closing.attempt.Some? && InFlight(s.attempts[s.closing.attempt.value]) {
      var a := s.closing.attempt.value;
      assert AttemptOk(s, s.attempts[a]);
      match s.attempts[a]
      case Importing => return Imported(a, true);
      case Handshaking(_) => return HandshakeDone(a, true);
      case Retiring(_, _) => return Retired(a);
      case Failed => return HandleRejection(a);
      case _ => return CloseSettles;
    }
    return CloseSettles;
  }

  function Ahead(k: Attempt): nat {
    match k
    case Importing => 4
    case Handshaking(_) => 3
    case Retiring(_, _) => 2
    case Failed => 1
    case _ => 0
  }

  function AttemptsAhead(attempts: seq<Attempt>): nat {
    if attempts == [] then 0 else AttemptsAhead(attempts[..|attempts| - 1]) + Ahead(attempts[|attempts| - 1])
  }

  function RetirementsAhead(retirements: seq<Retirement>): nat {
    if retirements == [] then 0
    else
      var last := retirements[|retirements| - 1].phase;
      RetirementsAhead(retirements[..|retirements| - 1])
      + (match last case Scheduled => 2 case Closing => 1 case Settled => 0)
  }

  /** How much code started attempts, retirements and the close have ahead of them. */
  function WorkAhead(s: State): nat {
    AttemptsAhead(s.attempts) + RetirementsAhead(s.retirements) + if s.closing.Joining? then 1 else 0
  }

  lemma {:induction false} AttemptAdvances(attempts: seq<Attempt>, a: nat, k: Attempt)
    requires a < |attempts| && Ahead(k) < Ahead(attempts[a])
    ensures AttemptsAhead(attempts[a := k]) < AttemptsAhead(attempts)
  {
    var n := |attempts| - 1;
    if a < n {
      assert attempts[a := k][..n] == attempts[..n][a := k];
      AttemptAdvances(attempts[..n], a, k);
    } else {
      assert attempts[a := k][..n] == attempts[..n];
    }
  }

  lemma {:induction false} RetirementAdvances(retirements: seq<Retirement>, r: nat, phase: Phase)
    requires r < |retirements| && retirements[r].phase != Settled && phase != Scheduled && phase != retirements[r].phase
    ensures RetirementsAhead(retirements[r := retirements[r].(phase := phase)]) < RetirementsAhead(retirements)
  {
    var n := |retirements| - 1;
    var next := retirements[r := retirements[r].(phase := phase)];
    if r < n {
      assert next[..n] == retirements[..n][r := retirements[..n][r].(phase := phase)];
      RetirementAdvances(retirements[..n], r, phase);
    } else {
      assert next[..n] == retirements[..n];
    }
  }

  /** Once close() has begun nothing new is started, and every step of what was started brings its settling nearer. */
  lemma CloseRunsOut(states: seq<State>, events: seq<Event>, i: nat)
    requires Run(states, events) && i < |events| && states[i].closed
    ensures WorkAhead(states[i + 1]) <= WorkAhead(states[i])
    ensures Moves(events[i]) ==> WorkAhead(states[i + 1]) < WorkAhead(states[i])
  {
    RunKeepsInv(states, events, i);
    StepAdvancesClose(states[i], events[i]);
  }

  lemma StepAdvancesClose(s: State, e: Event)
    requires Inv(s) && Enabled(s, e) && s.closed
    ensures WorkAhead(Step(s, e)) <= WorkAhead(s)
    ensures Moves(e) ==> WorkAhead(Step(s, e)) < WorkAhead(s)
  {
    match e
    case Imported(a, _) => AttemptAdvances(s.attempts, a, Failed);
    case HandshakeDone(a, ok) =>
      AttemptAdvances(s.attempts, a, Step(s, e).attempts[a]);
    case RetirementRuns(r) =>
      RetirementAdvances(s.retirements, r, if s.retirements[r].target.Some? then Closing else Settled);
    case RetirementSettles(r) => RetirementAdvances(s.retirements, r, Settled);
    case Retired(a) => AttemptAdvances(s.attempts, a, Failed);
    case HandleRejection(a) => AttemptAdvances(s.attempts, a, Rejected);
    case _ =>
  }

  /** Before a later transport replaces an earlier one, the earlier one's close has settled. */
  lemma ReplacedTransportsAreRetired(states: seq<State>, events: seq<Event>, i: nat)
    requires Run(states, events) && i < |events|
    requires |states[i + 1].transports| > |states[i].transports| > 0
    ensures states[i].retirement.Some? && states[i].retirement.value < |states[i].retirements|
    ensures states[i].retirements[states[i].retirement.value]
            == Retirement(Some(|states[i].transports| - 1), Settled)
  {
    RunKeepsInv(states, events, i);
  }

  // --------------------------------------------------------------- class

  class Client {
    var aborted: bool
    var transport: Option<nat>
    var transportRetirement: Option<nat>
    var closed: bool
    var closePromise: Close
    var connected: Option<nat>
    var attempts: seq<Attempt>
    var transports: seq<nat>
    var retirements: seq<Retirement>

    function View(): State
      reads this
    {
      State(aborted, transport, transportRetirement, closed, closePromise, connected, attempts, transports, retirements)
    }

    ghost predicate Valid()
      reads this
    {
      Inv(View())
    }

    constructor (aborted: bool)
      ensures Valid() && View() == Init(aborted)
    {
      this.aborted := aborted;
      transport, transportRetirement, closed, closePromise, connected := None, None, false, NotClosing, None;
      attempts, transports, retirements := [], [], [];
    }

    method RetireTransport() returns (r: nat)
      modifies this`transportRetirement, this`retirements
      ensures (View(), r) == Retire(old(View()))
    {
      if transportRetirement.Some? {
        return transportRetirement.value;
      }
      r := |retirements|;
      retirements := retirements + [Retirement(transport, Scheduled)];
      transportRetirement := Some(r);
    }

    /** The attempt to await, or none where the source throws or rejects. */
    method EnsureConnection() returns (attempt: Option<nat>)
      requires Valid()
      modifies this
      ensures Valid() && View() == Step(old(View()), EnsureConnected)
      ensures attempt == if old(aborted) || old(closed) then None else connected
    {
      StepKeepsInv(View(), EnsureConnected);
      if aborted || closed {
        return None;
      }
      if connected == None {
        connected := Some(|attempts|);
        attempts := attempts + [Importing];
      }
      return connected;
    }

    /** `connect()` after its import, up to the awaited handshake. */
    method AfterImport(a: nat, ok: bool)
      requires Valid() && Enabled(View(), Imported(a, ok))
      modifies this
      ensures Valid() && View() == Step(old(View()), Imported(a, ok))
    {
      StepKeepsInv(View(), Imported(a, ok));
      ghost var next := Step(View(), Imported(a, ok));
      if !ok || aborted || closed {
        attempts := attempts[a := Failed];
        assert View() == next;
        return;
      }
      var created := |transports|;
      transports := transports + [0];
      transport := Some(created);
      transportRetirement := None;
      attempts := attempts[a := Handshaking(created)];
      assert View() == next;
    }

    /** `connect()` after its handshake. */
    method AfterHandshake(a: nat, ok: bool)
      requires Valid() && Enabled(View(), HandshakeDone(a, ok))
      modifies this
      ensures Valid() && View() == Step(old(View()), HandshakeDone(a, ok))
    {
      StepKeepsInv(View(), HandshakeDone(a, ok));
      var created := attempts[a].transport;
      if !ok {
        var r := RetireTransport();
        attempts := attempts[a := Retiring(created, r)];
      } else if aborted || closed {
        attempts := attempts[a := Failed];
      } else {
        attempts := attempts[a := Ready(created)];
      }
    }

    method RunRetirement(r: nat)
      requires Valid() && Enabled(View(), RetirementRuns(r))
      modifies this
      ensures Valid() && View() == Step(old(View()), RetirementRuns(r))
    {
      StepKeepsInv(View(), RetirementRuns(r));
      ghost var next := Step(View(), RetirementRuns(r));
      match retirements[r].target {
        case Some(t) =>
          transports := transports[t := transports[t] + 1];
          retirements := retirements[r := retirements[r].(phase := Closing)];
        case None =>
          retirements := retirements[r := retirements[r].(phase := Settled)];
      }
      assert View() == next;
    }

    method TransportClosed(r: nat)
      requires Valid() && Enabled(View(), RetirementSettles(r))
      modifies this
      ensures Valid() && View() == Step(old(View()), RetirementSettles(r))
    {
      StepKeepsInv(View(), RetirementSettles(r));
      retirements := retirements[r := retirements[r].(phase := Settled)];
    }

    /** `connect()` after the retirement of its failed transport. */
    method AfterRetirement(a: nat)
      requires Valid() && Enabled(View(), Retired(a))
      modifies this
      ensures Valid() && View() == Step(old(View()), Retired(a))
    {
      StepKeepsInv(View(), Retired(a));
      attempts := attempts[a := Failed];
    }

    /** The rejection handler that lets a later call connect again. */
    method OnRejection(a: nat)
      requires Valid() && Enabled(View(), HandleRejection(a))
      modifies this
      ensures Valid() && View() == Step(old(View()), HandleRejection(a))
    {
      StepKeepsInv(View(), HandleRejection(a));
      connected := None;
      attempts := attempts[a := Rejected];
    }

    method CloseClient()
      requires Valid()
      modifies this
      ensures Valid() && View() == Step(old(View()), CallClose)
    {
      StepKeepsInv(View(), CallClose);
      Begin();
    }

    method Begin()
      modifies this
      ensures View() == BeginClose(old(View()))
    {
      if closePromise != NotClosing {
        return;
      }
      closed := true;
      var joined := connected;
      var retirement := RetireTransport();
      closePromise := Joining(retirement, joined);
    }

    /** The signal's listener closes the client in the same turn. */
    method AbortSignal()
      requires Valid() && Enabled(View(), Abort)
      modifies this
      ensures Valid() && View() == Step(old(View()), Abort)
    {
      StepKeepsInv(View(), Abort);
      aborted := true;
      Begin();
    }

    method CloseJoined()
      requires Valid() && Enabled(View(), CloseSettles)
      modifies this
      ensures Valid() && View() == Step(old(View()), CloseSettles)
    {
      StepKeepsInv(View(), CloseSettles);
      connected := None;
      closePromise := Closed;
    }
  }
}
