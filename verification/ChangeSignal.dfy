/**
 Model of the change signal: a revision that moves when the server reports
 something, and the waits that resolve when it moves past what they have seen.
 */
module ChangeSignal {
  import opened Results

  datatype Outcome = Unsettled | Resolved | Rejected

  /** One `wait` promise; `settles` counts the calls of its resolve and reject functions. */
  datatype Wait = Wait(after: int, signal: Option<nat>, settles: nat, outcome: Outcome)

  /** `listeners` are the waits whose abort listener is attached to their signal. */
  datatype State = State(
    current: int,
    waiters: set<nat>,
    listeners: set<nat>,
    aborted: set<nat>,
    waits: seq<Wait>)

  datatype Event = Bump | Begin(after: int, signal: Option<nat>) | Abort(id: nat)

  function Init(): State {
    State(0, {}, {}, {}, [])
  }

  /** `signal?.throwIfAborted()` */
  predicate IsAborted(s: State, signal: Option<nat>) {
    signal.Some? && signal.value in s.aborted
  }

  function SettleAll(waits: seq<Wait>, which: set<nat>, outcome: Outcome): (r: seq<Wait>)
    ensures |r| == |waits|
    ensures forall w | 0 <= w < |waits| ::
              r[w] == if w in which then Wait(waits[w].after, waits[w].signal, waits[w].settles + 1, outcome)
                      else waits[w]
  {
    seq(|waits|, w requires 0 <= w < |waits| =>
      if w in which then Wait(waits[w].after, waits[w].signal, waits[w].settles + 1, outcome) else waits[w])
  }

  /** The waits a signal's abort event reaches. */
  function Reached(s: State, signal: nat): set<nat> {
    set w | w in s.listeners && w < |s.waits| && s.waits[w].signal == Some(signal)
  }

  function Step(s: State, e: Event): State {
    match e
    case Bump =>
      s.(current := s.current + 1, waiters := {}, listeners := s.listeners - s.waiters,
         waits := SettleAll(s.waits, s.waiters, Resolved))
    case Begin(after, signal) =>
      if IsAborted(s, signal) then s
      else if s.current != after then s.(waits := s.waits + [Wait(after, signal, 1, Resolved)])
      else
        var w := |s.waits|;
        s.(waits := s.waits + [Wait(after, signal, 0, Unsettled)],
           waiters := s.waiters + {w},
           listeners := if signal.Some? then s.listeners + {w} else s.listeners)
    case Abort(signal) =>
      var reached := Reached(s, signal);
      s.(aborted := s.aborted + {signal}, waiters := s.waiters - reached, listeners := s.listeners - reached,
         waits := SettleAll(s.waits, reached, Rejected))
  }

  /**
   The waiter set is exactly the unsettled waits, each of which has seen the
   current revision; a settled wait was settled once.
   */
  ghost predicate Inv(s: State) {
    && (forall w | w in s.waiters :: w < |s.waits|)
    && (forall w | 0 <= w < |s.waits| ::
          if w in s.waiters then
            s.waits[w].settles == 0 && s.waits[w].outcome == Unsettled && s.waits[w].after == s.current
            && !IsAborted(s, s.waits[w].signal)
          else s.waits[w].settles == 1 && s.waits[w].outcome != Unsettled)
    && (forall w :: w in s.listeners <==> w in s.waiters && s.waits[w].signal.Some?)
  }

  lemma StepKeepsInv(s: State, e: Event)
    requires Inv(s)
    ensures Inv(Step(s, e))
  {
    var s' := Step(s, e);
    if e.Abort? {
      forall w | w in s'.waiters ensures s'.waits[w] == s.waits[w] && !IsAborted(s', s.waits[w].signal) {
        assert w !in Reached(s, e.id);
      }
    }
  }

  /** Settling is final: no later event touches a settled wait. */
  lemma SettledStays(s: State, e: Event, w: nat)
    requires Inv(s) && w < |s.waits| && s.waits[w].outcome != Unsettled
    ensures w < |Step(s, e).waits| && Step(s, e).waits[w] == s.waits[w]
  {
    if e.Abort? {
      assert w !in Reached(s, e.id);
    }
  }

  // ---------------------------------------------------------------- runs

  ghost predicate Run(states: seq<State>, events: seq<Event>) {
    && |states| == |events| + 1
    && states[0] == Init()
    && forall i | 0 <= i < |events| :: states[i + 1] == Step(states[i], events[i])
  }

  lemma {:induction false} RunKeepsInv(states: seq<State>, events: seq<Event>, i: nat)
    requires Run(states, events) && i <= |events|
    ensures Inv(states[i])
  {
    if i > 0 {
      RunKeepsInv(states, events, i - 1);
      StepKeepsInv(states[i - 1], events[i - 1]);
    }
  }

  /** Under any order of bumps and aborts a wait settles exactly once, and then stays as it is. */
  lemma {:induction false} WaitSettlesOnce(states: seq<State>, events: seq<Event>, i: nat, j: nat, w: nat)
    requires Run(states, events) && i <= j <= |events| && w < |states[i].waits|
    ensures w < |states[j].waits| && states[j].waits[w].settles <= 1
    ensures states[j].waits[w].settles == 0 <==> w in states[j].waiters
    ensures states[i].waits[w].outcome != Unsettled ==> states[j].waits[w] == states[i].waits[w]
    decreases j
  {
    RunKeepsInv(states, events, j);
    if i < j {
      WaitSettlesOnce(states, events, i, j - 1, w);
      RunKeepsInv(states, events, j - 1);
      if states[j - 1].waits[w].outcome != Unsettled {
        SettledStays(states[j - 1], events[j - 1], w);
      }
    }
  }

  /** A wait still pending missed nothing: no bump followed the revision it was given. */
  lemma PendingSawEverything(states: seq<State>, events: seq<Event>, i: nat, w: nat)
    requires Run(states, events) && i <= |events|
    requires w < |states[i].waits| && states[i].waits[w].outcome == Unsettled
    ensures states[i].waits[w].after == states[i].current
  {
    RunKeepsInv(states, events, i);
  }

  /** The bumps among the first `n` events. */
  function Bumps(events: seq<Event>, n: nat): nat
    requires n <= |events|
  {
    if n == 0 then 0 else Bumps(events, n - 1) + if events[n - 1].Bump? then 1 else 0
  }

  predicate IsAbort(e: Event, signal: Option<nat>) {
    e.Abort? && signal == Some(e.id)
  }

  ghost predicate AbortedBefore(events: seq<Event>, n: nat, signal: Option<nat>)
    requires n <= |events|
  {
    exists h | 0 <= h < n :: IsAbort(events[h], signal)
  }

  /** The first of the events from `i` up to `j` that is a bump or an abort of `signal` ends a pending wait. */
  function Ended(events: seq<Event>, i: nat, j: nat, signal: Option<nat>): Outcome
    requires i <= j <= |events|
  {
    if i == j then Unsettled
    else if Ended(events, i, j - 1, signal) != Unsettled then Ended(events, i, j - 1, signal)
    else if events[j - 1].Bump? then Resolved
    else if IsAbort(events[j - 1], signal) then Rejected
    else Unsettled
  }

  lemma StepCounts(s: State, e: Event, signal: Option<nat>)
    ensures Step(s, e).current == s.current + if e.Bump? then 1 else 0
    ensures IsAborted(Step(s, e), signal) <==> IsAborted(s, signal) || IsAbort(e, signal)
  {
  }

  /** The revision counts the bumps, and a signal stays aborted. */
  lemma {:induction false} HistoryExactly(states: seq<State>, events: seq<Event>, i: nat, signal: Option<nat>)
    requires Run(states, events) && i <= |events|
    ensures states[i].current == Bumps(events, i)
    ensures IsAborted(states[i], signal) <==> AbortedBefore(events, i, signal)
  {
    if i > 0 {
      HistoryExactly(states, events, i - 1, signal);
      StepCounts(states[i - 1], events[i - 1], signal);
    }
  }

  lemma StepEnds(s: State, e: Event, w: nat)
    requires Inv(s) && w < |s.waits|
    ensures w < |Step(s, e).waits| && Step(s, e).waits[w].signal == s.waits[w].signal
    ensures Step(s, e).waits[w].outcome
            == if s.waits[w].outcome != Unsettled then s.waits[w].outcome
               else if e.Bump? then Resolved
               else if IsAbort(e, s.waits[w].signal) then Rejected
               else Unsettled
  {
  }

  /** A wait keeps its outcome, and one without is ended by the first bump or abort of its signal. */
  lemma {:induction false} LaterEnds(states: seq<State>, events: seq<Event>, i: nat, j: nat, w: nat)
    requires Run(states, events) && i <= j <= |events| && w < |states[i].waits|
    ensures w < |states[j].waits| && states[j].waits[w].signal == states[i].waits[w].signal
    ensures states[j].waits[w].outcome
            == if states[i].waits[w].outcome != Unsettled then states[i].waits[w].outcome
               else Ended(events, i, j, states[i].waits[w].signal)
    decreases j
  {
    if i < j {
      LaterEnds(states, events, i, j - 1, w);
      RunKeepsInv(states, events, j - 1);
      StepEnds(states[j - 1], events[j - 1], w);
    }
  }

  lemma BeginsExactly(s: State, after: int, signal: Option<nat>)
    ensures var s', w := Step(s, Begin(after, signal)), |s.waits|;
            if IsAborted(s, signal) then s' == s
            else
              && |s'.waits| == w + 1 && s'.waits[w].signal == signal
              && s'.waits[w].outcome == if s.current != after then Resolved else Unsettled
  {
  }

  /**
   A wait throws at once if its signal was aborted before and resolves at once
   if there were not `after` bumps before; any other is pending until the first
   bump or abort of its signal.
   */
  lemma WaitEndsExactly(states: seq<State>, events: seq<Event>, k: nat, j: nat, after: int, signal: Option<nat>)
    requires Run(states, events) && k < j <= |events| && events[k] == Begin(after, signal)
    ensures var w := |states[k].waits|;
            if AbortedBefore(events, k, signal) then states[k + 1] == states[k]
            else
              && w < |states[j].waits|
              && states[j].waits[w].outcome
                 == if after != Bumps(events, k) then Resolved else Ended(events, k + 1, j, signal)
  {
    HistoryExactly(states, events, k, signal);
    BeginsExactly(states[k], after, signal);
    if !IsAborted(states[k], signal) {
      LaterEnds(states, events, k + 1, j, |states[k].waits|);
    }
  }

  // --------------------------------------------------------------- class

  class Signal {
    var current: int
    var waiters: set<nat>
    var listeners: set<nat>
    var aborted: set<nat>
    var waits: seq<Wait>

    function View(): State
      reads this
    {
      State(current, waiters, listeners, aborted, waits)
    }

    ghost predicate Valid()
      reads this
    {
      Inv(View())
    }

    constructor ()
      ensures Valid() && View() == Init()
    {
      current, waiters, listeners, aborted, waits := 0, {}, {}, {}, [];
    }

    function Revision(): (revision: int)
      reads this
    {
      current
    }

    method BumpRevision()
      requires Valid()
      modifies this
      ensures Valid() && View() == Step(old(View()), Bump)
    {
      StepKeepsInv(View(), Bump);
      current := current + 1;
      var copy := waiters;
      while copy != {}
        invariant waiters == copy && current == old(current) + 1 && aborted == old(aborted)
        invariant copy <= old(waiters)
        invariant listeners == old(listeners) - (old(waiters) - copy)
        invariant waits == SettleAll(old(waits), old(waiters) - copy, Resolved)
        decreases copy
      {
        var wake :| wake in copy;
        copy := copy - {wake};
        waiters := waiters - {wake};
        listeners := listeners - {wake};
        waits := waits[wake := Wait(waits[wake].after, waits[wake].signal, waits[wake].settles + 1, Resolved)];
      }
      assert old(waiters) - {} == old(waiters);
    }

    /** The wait's place in `waits`, or none where the source throws the abort reason. */
    method BeginWait(after: int, signal: Option<nat>) returns (w: Option<nat>)
      requires Valid()
      modifies this
      ensures Valid() && View() == Step(old(View()), Begin(after, signal))
      ensures w == if old(IsAborted(View(), signal)) then None else Some(|old(waits)|)
    {
      StepKeepsInv(View(), Begin(after, signal));
      if signal.Some? && signal.value in aborted {
        return None;
      }
      w := Some(|waits|);
      if current != after {
        waits := waits + [Wait(after, signal, 1, Resolved)];
        return;
      }
      waiters := waiters + {|waits|};
      if signal.Some? {
        listeners := listeners + {|waits|};
      }
      waits := waits + [Wait(after, signal, 0, Unsettled)];
    }

    method AbortWaits(signal: nat)
      requires Valid()
      modifies this
      ensures Valid() && View() == Step(old(View()), Abort(signal))
    {
      StepKeepsInv(View(), Abort(signal));
      var reached := set w | w in listeners && w < |waits| && waits[w].signal == Some(signal);
      assert reached == Reached(old(View()), signal);
      aborted := aborted + {signal};
      waiters := waiters - reached;
      listeners := listeners - reached;
      waits := SettleAll(waits, reached, Rejected);
    }
  }
}
