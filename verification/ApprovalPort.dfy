/**
 Model of the startup approval port's change notice: a revision, and waits that end with a change, a slow timer or
 the close.
 */
module ApprovalPort {
  /** One `waitForChange` promise; `settles` counts the calls of its `finish` or of `Promise.resolve`. */
  datatype Wait = Wait(after: nat, settles: nat, timer: bool)

  datatype State = State(revision: nat, waiters: set<nat>, waits: seq<Wait>)

  datatype Event = Changed | Begin(after: nat) | Tick(wait: nat) | Close

  function Init(): State {
    State(0, {}, [])
  }

  /** `finish` on every one of `which`. */
  function FinishAll(waits: seq<Wait>, which: set<nat>): (r: seq<Wait>)
    ensures |r| == |waits|
    ensures forall w | 0 <= w < |waits| ::
              r[w] == if w in which then Wait(waits[w].after, waits[w].settles + 1, false) else waits[w]
  {
    seq(|waits|, w requires 0 <= w < |waits| =>
      if w in which then Wait(waits[w].after, waits[w].settles + 1, false) else waits[w])
  }

  /** A cleared timer does not fire. */
  predicate Enabled(s: State, e: Event) {
    e.Tick? ==> e.wait < |s.waits| && s.waits[e.wait].timer
  }

  function Step(s: State, e: Event): State
    requires Enabled(s, e)
  {
    match e
    case Changed => State(s.revision + 1, {}, FinishAll(s.waits, s.waiters))
    case Close => State(s.revision, {}, FinishAll(s.waits, s.waiters))
    case Tick(w) => State(s.revision, s.waiters - {w}, FinishAll(s.waits, {w}))
    case Begin(after) =>
      if s.revision != after then s.(waits := s.waits + [Wait(after, 1, false)])
      else s.(waits := s.waits + [Wait(after, 0, true)], waiters := s.waiters + {|s.waits|})
  }

  predicate Settled(s: State, w: nat)
    requires w < |s.waits|
  {
    s.waits[w].settles > 0
  }

  /**
   The waiters are the unsettled waits, each at the current revision with its timer running; the others settled once.
   */
  ghost predicate Inv(s: State) {
    && (forall w | w in s.waiters :: w < |s.waits|)
    && forall w | 0 <= w < |s.waits| ::
         if w in s.waiters then s.waits[w] == Wait(s.revision, 0, true)
         else s.waits[w].settles == 1 && !s.waits[w].timer
  }

  lemma StepKeepsInv(s: State, e: Event)
    requires Inv(s) && Enabled(s, e)
    ensures Inv(Step(s, e))
    ensures s.revision <= Step(s, e).revision && |s.waits| <= |Step(s, e).waits|
    ensures forall w | 0 <= w < |s.waits| :: Step(s, e).waits[w].after == s.waits[w].after
    ensures forall w | 0 <= w < |s.waits| && Settled(s, w) :: Step(s, e).waits[w] == s.waits[w]
  {
  }

  // ---------------------------------------------------------------- runs

  ghost predicate Run(states: seq<State>, events: seq<Event>) {
    && |states| == |events| + 1
    && states[0] == Init()
    && forall i | 0 <= i < |events| ::
         Enabled(states[i], events[i]) && states[i + 1] == Step(states[i], events[i])
  }

  /** The changes among the first `n` events. */
  function Changes(events: seq<Event>, n: nat): nat
    requires n <= |events|
  {
    if n == 0 then 0 else Changes(events, n - 1) + if events[n - 1].Changed? then 1 else 0
  }

  /** A change, the close or the wait's own timer is among the events from `i` up to `j`. */
  predicate Ended(events: seq<Event>, i: nat, j: nat, w: nat)
    requires i <= j <= |events|
  {
    i < j && (Ended(events, i, j - 1, w) || Ends(events[j - 1], w))
  }

  predicate Ends(e: Event, w: nat) {
    e.Changed? || e.Close? || e == Tick(w)
  }

  lemma StepEnds(s: State, e: Event, w: nat)
    requires Inv(s) && Enabled(s, e) && w < |s.waits|
    ensures w < |Step(s, e).waits| && (Settled(Step(s, e), w) <==> Settled(s, w) || Ends(e, w))
  {
  }

  lemma {:induction false} RunKeepsInv(states: seq<State>, events: seq<Event>, i: nat)
    requires Run(states, events) && i <= |events|
    ensures Inv(states[i])
  {
    if i > 0 {
      RunKeepsInv(states, events, i - 1);
      StepKeepsInv(states[i - 1], events[i - 1]);
    }
  }

  lemma {:induction false} RunCounts(states: seq<State>, events: seq<Event>, i: nat)
    requires Run(states, events) && i <= |events|
    ensures states[i].revision == Changes(events, i)
  {
    if i > 0 {
      RunCounts(states, events, i - 1);
    }
  }

  lemma NextEnds(states: seq<State>, events: seq<Event>, i: nat, w: nat)
    requires Run(states, events) && i < |events| && w < |states[i].waits|
    ensures w < |states[i + 1].waits|
    ensures Settled(states[i + 1], w) <==> Settled(states[i], w) || Ends(events[i], w)
  {
    RunKeepsInv(states, events, i);
    StepEnds(states[i], events[i], w);
  }

  lemma {:induction false} LaterEnds(states: seq<State>, events: seq<Event>, i: nat, j: nat, w: nat)
    requires Run(states, events) && i <= j <= |events| && w < |states[i].waits|
    ensures w < |states[j].waits|
    ensures Settled(states[j], w) <==> Settled(states[i], w) || Ended(events, i, j, w)
    decreases j
  {
    if i < j {
      LaterEnds(states, events, i, j - 1, w);
      NextEnds(states, events, j - 1, w);
    }
  }

  /** A wait is over at once if its revision is not the present one, otherwise with a change, the close or its timer. */
  lemma WaitEndsExactly(states: seq<State>, events: seq<Event>, k: nat, j: nat)
    requires Run(states, events) && k < j <= |events| && events[k].Begin?
    ensures var w := |states[k].waits|;
            && w < |states[j].waits|
            && (Settled(states[j], w) <==>
                  events[k].after != Changes(events, k) || Ended(events, k + 1, j, w))
  {
    RunCounts(states, events, k);
    LaterEnds(states, events, k + 1, j, |states[k].waits|);
  }

  // --------------------------------------------------------------- class

  class Port {
    var revision: nat
    var waiters: set<nat>
    var waits: seq<Wait>

    function View(): State
      reads this
    {
      State(revision, waiters, waits)
    }

    ghost predicate Valid()
      reads this
    {
      Inv(View())
    }

    constructor ()
      ensures Valid() && View() == Init()
    {
      revision, waiters, waits := 0, {}, [];
    }

    /** Each `finish` takes itself out of the set being iterated. */
    method FinishWaiters()
      requires Valid()
      modifies this`waiters, this`waits
      ensures waiters == {} && waits == FinishAll(old(waits), old(waiters))
    {
      while waiters != {}
        invariant waiters <= old(waiters)
        invariant waits == FinishAll(old(waits), old(waiters) - waiters)
        decreases waiters
      {
        var w :| w in waiters;
        waiters := waiters - {w};
        waits := waits[w := Wait(waits[w].after, waits[w].settles + 1, false)];
      }
      assert old(waiters) - {} == old(waiters);
    }

    method OnChanged()
      requires Valid()
      modifies this
      ensures Valid() && View() == Step(old(View()), Changed)
    {
      StepKeepsInv(View(), Changed);
      FinishWaiters();
      revision := revision + 1;
    }

    method OnClose()
      requires Valid()
      modifies this
      ensures Valid() && View() == Step(old(View()), Close)
    {
      StepKeepsInv(View(), Close);
      FinishWaiters();
    }

    method OnTimer(w: nat)
      requires Valid() && Enabled(View(), Tick(w))
      modifies this
      ensures Valid() && View() == Step(old(View()), Tick(w))
    {
      StepKeepsInv(View(), Tick(w));
      waiters := waiters - {w};
      waits := waits[w := Wait(waits[w].after, waits[w].settles + 1, false)];
      assert waits == FinishAll(old(waits), {w});
    }

    method WaitForChange(after: nat) returns (w: nat)
      requires Valid()
      modifies this
      ensures Valid() && View() == Step(old(View()), Begin(after)) && w == old(|waits|)
    {
      StepKeepsInv(View(), Begin(after));
      w := |waits|;
      if revision != after {
        waits := waits + [Wait(after, 1, false)];
      } else {
        waits := waits + [Wait(after, 0, true)];
        waiters := waiters + {w};
      }
    }
  }
}
