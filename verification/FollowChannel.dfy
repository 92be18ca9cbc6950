/**
 Model of following a channel's durable log live.

 Every subscription is a generation, numbered from 0 in `subs`.  A recovery
 starts a new one while streams of older ones may still deliver records; the
 environment chooses which open stream delivers, ends or fails next.
 */
module FollowChannel {
  import opened Results

  /** `cursor` is the last event this stream has delivered, at first its `sinceId`. */
  datatype Sub = Sub(since: Option<int>, acknowledged: bool, aborted: bool, open: bool, cursor: Option<int>)

  datatype Ended = Pending | Resolved | Failed

  datatype State = State(
    lastRendered: int,
    active: Option<nat>,
    stopped: bool,
    subs: seq<Sub>,
    ended: Ended,
    output: seq<int>)

  /** A record of a stream: its acknowledgement with replayed events, or one payload. */
  datatype Rec = Ack(events: seq<int>) | Payload(ours: bool, event: Option<int>) | EndOfStream | StreamFailure

  /** `throws` is a subscribe call that throws at once: its catch branch runs before the generation is active. */
  datatype Event = Subscribe(throws: bool) | Receive(g: nat, rec: Rec) | Stop

  function Init(): State {
    State(0, None, false, [], Pending, [])
  }

  predicate Enabled(s: State, e: Event) {
    e.Receive? ==> e.g < |s.subs| && s.subs[e.g].open
  }

  /** `render` for each event in turn: what was rendered before is skipped. */
  function Render(s: State, events: seq<int>): State
    decreases |events|
  {
    if events == [] then s
    else if events[0] <= s.lastRendered then Render(s, events[1..])
    else Render(s.(lastRendered := events[0], output := s.output + [events[0]]), events[1..])
  }

  function Abort(subs: seq<Sub>, active: Option<nat>): seq<Sub> {
    if active.Some? && active.value < |subs| then subs[active.value := subs[active.value].(aborted := true)] else subs
  }

  function Shut(s: State, g: nat): State
    requires g < |s.subs|
  {
    s.(subs := s.subs[g := s.subs[g].(open := false)])
  }

  /** The stream's catch branch. */
  function Fail(s: State, g: nat): State
    requires g < |s.subs|
  {
    var s' := Shut(s, g);
    if !s.subs[g].aborted && s.active == Some(g) && s.ended == Pending then s'.(ended := Failed) else s'
  }

  function Advance(cursor: Option<int>, events: seq<int>): Option<int>
    decreases |events|
  {
    if events == [] then cursor
    else Advance(if cursor.Some? && events[0] <= cursor.value then cursor else Some(events[0]), events[1..])
  }

  function Delivered(rec: Rec): seq<int> {
    match rec
    case Ack(events) => events
    case Payload(ours, event) => if ours && event.Some? then [event.value] else []
    case _ => []
  }

  /** The code after the record loop. */
  function Finish(s: State, g: nat): State
    requires g < |s.subs|
  {
    if !s.subs[g].acknowledged then Fail(s, g)
    else if s.active == Some(g) && !s.stopped && s.ended == Pending then Shut(s, g).(ended := Resolved)
    else Shut(s, g)
  }

  function Step(s: State, e: Event): State
    requires Enabled(s, e)
  {
    match e
    case Subscribe(throws) =>
      var since := if s.lastRendered > 0 then Some(s.lastRendered) else None;
      s.(subs := Abort(s.subs, s.active) + [Sub(since, false, false, !throws, since)], active := Some(|s.subs|))
    case Stop => s.(stopped := true, subs := Abort(s.subs, s.active))
    case Receive(g, rec) =>
      match rec
      case StreamFailure => Fail(s, g)
      case EndOfStream => Finish(s, g)
      case _ =>
        if s.active != Some(g) then Finish(s, g)
        else if rec.Ack? == s.subs[g].acknowledged then Fail(s, g)
        else
          var sub := s.subs[g].(acknowledged := true, cursor := Advance(s.subs[g].cursor, Delivered(rec)));
          Render(s.(subs := s.subs[g := sub]), Delivered(rec))
  }

  // ----------------------------------------------------------- ordering

  ghost predicate Ordered(s: State) {
    && s.lastRendered >= 0
    && (forall i, j | 0 <= i < j < |s.output| :: s.output[i] < s.output[j])
    && (if s.output == [] then s.lastRendered == 0 else s.lastRendered == s.output[|s.output| - 1] > 0)
  }

  ghost predicate NewestIsActive(s: State) {
    s.active == (if s.subs == [] then None else Some(|s.subs| - 1))
  }

  lemma {:induction false} RenderKeepsOrder(s: State, events: seq<int>)
    requires Ordered(s)
    ensures Ordered(Render(s, events))
    ensures Render(s, events) == s.(lastRendered := Render(s, events).lastRendered, output := Render(s, events).output)
    ensures s.output <= Render(s, events).output
    decreases |events|
  {
    if events != [] {
      if events[0] <= s.lastRendered {
        RenderKeepsOrder(s, events[1..]);
      } else {
        var s' := s.(lastRendered := events[0], output := s.output + [events[0]]);
        RenderKeepsOrder(s', events[1..]);
      }
    }
  }

  /** The record is of the kind that is due, on the active generation. */
  predicate Delivers(s: State, e: Event) {
    && e.Receive? && e.g < |s.subs| && s.active == Some(e.g) && (e.rec.Ack? || e.rec.Payload?)
    && e.rec.Ack? != s.subs[e.g].acknowledged
  }

  lemma DeliveryKeepsOrder(s: State, e: Event)
    requires Ordered(s) && NewestIsActive(s) && Enabled(s, e) && Delivers(s, e)
    ensures Ordered(Step(s, e)) && NewestIsActive(Step(s, e))
    ensures s.output <= Step(s, e).output && Step(s, e).ended == s.ended
  {
    var sub := s.subs[e.g].(acknowledged := true, cursor := Advance(s.subs[e.g].cursor, Delivered(e.rec)));
    RenderKeepsOrder(s.(subs := s.subs[e.g := sub]), Delivered(e.rec));
  }

  lemma OthersKeepOrder(s: State, e: Event)
    requires Ordered(s) && NewestIsActive(s) && Enabled(s, e) && !Delivers(s, e)
    ensures Ordered(Step(s, e)) && NewestIsActive(Step(s, e)) && Step(s, e).output == s.output
    ensures Step(s, e).ended != s.ended ==>
              s.ended == Pending && e.Receive? && s.active == Some(e.g)
              && (Step(s, e).ended == Failed ==> !s.subs[e.g].aborted)
              && (Step(s, e).ended == Resolved ==> !s.stopped)
  {
  }

  lemma StepKeepsOrder(s: State, e: Event)
    requires Ordered(s) && NewestIsActive(s) && Enabled(s, e)
    ensures Ordered(Step(s, e)) && NewestIsActive(Step(s, e))
    ensures s.output <= Step(s, e).output
    ensures Step(s, e).output != s.output ==> e.Receive? && s.active == Some(e.g) && e.g == |s.subs| - 1
    ensures Step(s, e).ended != s.ended ==>
              s.ended == Pending && e.Receive? && s.active == Some(e.g)
              && (Step(s, e).ended == Failed ==> !s.subs[e.g].aborted)
              && (Step(s, e).ended == Resolved ==> !s.stopped)
  {
    if Delivers(s, e) {
      DeliveryKeepsOrder(s, e);
    } else {
      OthersKeepOrder(s, e);
    }
  }

  // ----------------------------------------------------------- no gap

  /** `id` is the event right after `cursor` in the log; without a cursor, any event. */
  ghost predicate Follows(log: seq<int>, cursor: Option<int>, id: int) {
    match cursor
    case None => id in log
    case Some(c) => exists k :: 0 <= k < |log| - 1 && log[k] == c && log[k + 1] == id
  }

  /** The server's contract for one record: each event follows the cursor or repeats an older one. */
  ghost predicate InOrder(log: seq<int>, cursor: Option<int>, events: seq<int>)
    decreases |events|
  {
    events != [] ==>
      if cursor.Some? && events[0] <= cursor.value then InOrder(log, cursor, events[1..])
      else Follows(log, cursor, events[0]) && InOrder(log, Some(events[0]), events[1..])
  }

  ghost predicate Honest(s: State, e: Event, log: seq<int>) {
    e.Receive? && e.g < |s.subs| ==> InOrder(log, s.subs[e.g].cursor, Delivered(e.rec))
  }

  ghost predicate IsLog(log: seq<int>) {
    && (forall i | 0 <= i < |log| :: log[i] > 0)
    && (forall i, j | 0 <= i < j < |log| :: log[i] < log[j])
  }

  ghost predicate StretchAt(log: seq<int>, output: seq<int>, a: int) {
    0 <= a && a + |output| <= |log| && output == log[a..a + |output|]
  }

  /** The output is one contiguous stretch of the log. */
  ghost predicate Contiguous(log: seq<int>, output: seq<int>) {
    exists a :: StretchAt(log, output, a)
  }

  function Last(output: seq<int>): Option<int> {
    if output == [] then None else Some(output[|output| - 1])
  }

  lemma StretchGrows(log: seq<int>, output: seq<int>, id: int, a: int, k: nat)
    requires IsLog(log) && StretchAt(log, output, a) && output != []
    requires k < |log| - 1 && log[k] == output[|output| - 1] && log[k + 1] == id
    ensures StretchAt(log, output + [id], a)
  {
    var last := a + |output| - 1;
    assert output[|output| - 1] == log[last];
    assert k == last;
    assert log[a..last + 2] == log[a..last + 1] + [log[last + 1]];
  }

  lemma ExtendContiguous(log: seq<int>, output: seq<int>, id: int)
    requires IsLog(log) && Contiguous(log, output) && Follows(log, Last(output), id)
    ensures Contiguous(log, output + [id])
  {
    if output == [] {
      var k :| 0 <= k < |log| && log[k] == id;
      assert StretchAt(log, output + [id], k);
    } else {
      var a :| StretchAt(log, output, a);
      var k :| 0 <= k < |log| - 1 && log[k] == output[|output| - 1] && log[k + 1] == id;
      StretchGrows(log, output, id, a, k);
    }
  }

  /** Rendering an in-order record from a stream whose cursor is the last rendered event. */
  lemma {:induction false} RenderIsGapFree(s: State, events: seq<int>, log: seq<int>)
    requires IsLog(log) && Ordered(s) && Contiguous(log, s.output)
    requires InOrder(log, Last(s.output), events)
    ensures Contiguous(log, Render(s, events).output)
    ensures Advance(Last(s.output), events) == Last(Render(s, events).output)
    decreases |events|
  {
    if events != [] {
      if s.output == [] {
        assert Follows(log, None, events[0]) && events[0] > 0;
      }
      if events[0] <= s.lastRendered {
        RenderIsGapFree(s, events[1..], log);
      } else {
        ExtendContiguous(log, s.output, events[0]);
        RenderIsGapFree(s.(lastRendered := events[0], output := s.output + [events[0]]), events[1..], log);
      }
    }
  }

  ghost predicate CursorAtOutput(s: State) {
    s.active.Some? ==> s.active.value < |s.subs| && s.subs[s.active.value].cursor == Last(s.output)
  }

  lemma ReceiveIsGapFree(s: State, g: nat, rec: Rec, log: seq<int>)
    requires IsLog(log) && Ordered(s) && Enabled(s, Receive(g, rec)) && Honest(s, Receive(g, rec), log)
    requires Contiguous(log, s.output) && CursorAtOutput(s)
    requires s.active == Some(g) && (rec.Ack? || rec.Payload?) && rec.Ack? != s.subs[g].acknowledged
    ensures Contiguous(log, Step(s, Receive(g, rec)).output) && CursorAtOutput(Step(s, Receive(g, rec)))
  {
    var sub := s.subs[g].(acknowledged := true, cursor := Advance(s.subs[g].cursor, Delivered(rec)));
    var s' := s.(subs := s.subs[g := sub]);
    RenderKeepsOrder(s', Delivered(rec));
    RenderIsGapFree(s', Delivered(rec), log);
  }

  /** A step that delivers the active generation no payload renders nothing. */
  lemma OtherStepsRenderNothing(s: State, e: Event)
    requires Ordered(s) && Enabled(s, e) && CursorAtOutput(s)
    requires !Delivers(s, e)
    ensures Step(s, e).output == s.output && CursorAtOutput(Step(s, e))
  {
  }

  lemma StepIsGapFree(s: State, e: Event, log: seq<int>)
    requires IsLog(log) && Ordered(s) && NewestIsActive(s) && Enabled(s, e) && Honest(s, e, log)
    requires Contiguous(log, s.output) && CursorAtOutput(s)
    ensures Contiguous(log, Step(s, e).output) && CursorAtOutput(Step(s, e))
  {
    if Delivers(s, e) {
      ReceiveIsGapFree(s, e.g, e.rec, log);
    } else {
      OtherStepsRenderNothing(s, e);
    }
  }

  // ---------------------------------------------------------------- runs

  ghost predicate Run(states: seq<State>, events: seq<Event>) {
    && |states| == |events| + 1
    && states[0] == Init()
    && forall i | 0 <= i < |events| ::
         Enabled(states[i], events[i]) && states[i + 1] == Step(states[i], events[i])
  }

  /** Across all recoveries the rendered ids strictly increase. */
  lemma {:induction false} RendersInOrder(states: seq<State>, events: seq<Event>, i: nat)
    requires Run(states, events) && i <= |events|
    ensures Ordered(states[i]) && NewestIsActive(states[i])
  {
    if i > 0 {
      RendersInOrder(states, events, i - 1);
      StepKeepsOrder(states[i - 1], events[i - 1]);
    }
  }

  /** Whatever is rendered, and whoever settles `ended`, is the newest generation. */
  lemma SupersededNeverRenders(states: seq<State>, events: seq<Event>, i: nat)
    requires Run(states, events) && i < |events|
    requires states[i + 1].output != states[i].output || states[i + 1].ended != states[i].ended
    ensures events[i].Receive? && events[i].g == |states[i].subs| - 1
    ensures states[i + 1].output != states[i].output ==> states[i].output < states[i + 1].output
    ensures states[i + 1].ended != states[i].ended ==> states[i].ended == Pending
  {
    RendersInOrder(states, events, i);
    StepKeepsOrder(states[i], events[i]);
  }

  /** With a server that keeps its contract, nothing is skipped after the first rendered event. */
  lemma {:induction false} RendersWithoutGap(states: seq<State>, events: seq<Event>, log: seq<int>, i: nat)
    requires Run(states, events) && i <= |events| && IsLog(log)
    requires forall k | 0 <= k < |events| :: Honest(states[k], events[k], log)
    ensures Contiguous(log, states[i].output) && CursorAtOutput(states[i])
  {
    if i == 0 {
      assert StretchAt(log, [], 0);
    } else {
      RendersWithoutGap(states, events, log, i - 1);
      RendersInOrder(states, events, i - 1);
      StepIsGapFree(states[i - 1], events[i - 1], log);
    }
  }

  /** The record breaks the stream's protocol, or is its failure. */
  predicate Breaks(acknowledged: bool, rec: Rec) {
    match rec
    case StreamFailure => true
    case EndOfStream => !acknowledged
    case Ack(_) => acknowledged
    case Payload(_, _) => !acknowledged
  }

  /** A subscription asks for what follows the last rendered event; unless its call threw any record may come. */
  lemma SubscribesExactly(states: seq<State>, events: seq<Event>, k: nat, rec: Rec)
    requires Run(states, events) && k < |events| && events[k].Subscribe?
    ensures var s, s', g := states[k], states[k + 1], |states[k].subs|;
            && |s'.subs| == g + 1 && s'.active == Some(g) && !s'.subs[g].acknowledged && !s'.subs[g].aborted
            && s'.subs[g].since == (if s.output == [] then None else Some(s.output[|s.output| - 1]))
            && (Enabled(s', Receive(g, rec)) <==> !events[k].throws)
  {
    RendersInOrder(states, events, k);
  }

  /** `ended` is settled exactly by the newest generation: by its stream's end, or by a break unless it was aborted. */
  lemma EndedExactly(states: seq<State>, events: seq<Event>, i: nat)
    requires Run(states, events) && i < |events| && states[i].ended == Pending
    ensures states[i + 1].ended == Resolved <==>
            && events[i].Receive? && events[i].g == |states[i].subs| - 1 && events[i].rec == EndOfStream
            && states[i].subs[events[i].g].acknowledged && !states[i].stopped
    ensures states[i + 1].ended == Failed <==>
            && events[i].Receive? && events[i].g == |states[i].subs| - 1
            && !states[i].subs[events[i].g].aborted && Breaks(states[i].subs[events[i].g].acknowledged, events[i].rec)
  {
    RendersInOrder(states, events, i);
    if Delivers(states[i], events[i]) {
      DeliveryKeepsOrder(states[i], events[i]);
    }
  }

  lemma KeepsStopped(s: State, e: Event)
    requires Enabled(s, e) && Ordered(s) && s.stopped
    ensures Step(s, e).stopped
  {
    if Delivers(s, e) {
      DeliveryMovesCursor(s, e);
    }
  }

  /** A new subscription and a stop abort the stream that was active; once stopped, no end of a stream counts. */
  lemma {:induction false} StopIsFinal(states: seq<State>, events: seq<Event>, i: nat, j: nat)
    requires Run(states, events) && i < j <= |events|
    ensures (events[i].Subscribe? || events[i].Stop?) && states[i].subs != [] ==>
              |states[i].subs| <= |states[i + 1].subs| && states[i + 1].subs[|states[i].subs| - 1].aborted
    ensures events[i].Stop? ==> states[j].stopped && (states[i].ended == Pending ==> states[j].ended != Resolved)
    decreases j
  {
    RendersInOrder(states, events, i);
    if i + 1 < j {
      StopIsFinal(states, events, i, j - 1);
      RendersInOrder(states, events, j - 1);
      if events[i].Stop? {
        KeepsStopped(states[j - 1], events[j - 1]);
      }
      if states[j - 1].ended == Pending {
        EndedExactly(states, events, j - 1);
      } else {
        StepKeepsOrder(states[j - 1], events[j - 1]);
      }
    }
  }

  // ----------------------------------------------- the server's contract

  /** The ids that the first `n` events bring from stream `g`: replayed with its acknowledgement, or one by one. */
  ghost function Sent(events: seq<Event>, g: nat, n: nat): seq<int>
    requires n <= |events|
  {
    if n == 0 then []
    else
      Sent(events, g, n - 1)
      + match events[n - 1]
        case Receive(from, Ack(ids)) => if from == g then ids else []
        case Receive(from, Payload(true, Some(id))) => if from == g then [id] else []
        case _ => []
  }

  /**
   What the server promises of every stream: behind the event the subscription
   asked from, or anywhere if it named none, each id it sends follows the
   newest it has sent, or repeats an older one.
   */
  ghost predicate KeepsContract(states: seq<State>, events: seq<Event>, log: seq<int>) {
    forall g: nat, n | 0 <= n <= |events| && n < |states| && g < |states[n].subs| ::
      InOrder(log, states[n].subs[g].since, Sent(events, g, n))
  }

  lemma {:induction false} InOrderSplits(log: seq<int>, cursor: Option<int>, a: seq<int>, b: seq<int>)
    ensures Advance(cursor, a + b) == Advance(Advance(cursor, a), b)
    ensures InOrder(log, cursor, a + b) <==> InOrder(log, cursor, a) && InOrder(log, Advance(cursor, a), b)
    decreases |a|
  {
    if a == [] {
      assert a + b == b;
    } else {
      assert (a + b)[1..] == a[1..] + b;
      InOrderSplits(log, if cursor.Some? && a[0] <= cursor.value then cursor else Some(a[0]), a[1..], b);
    }
  }

  /** An open stream's cursor is where what it sent has brought it. */
  ghost predicate CursorsAreSent(s: State, events: seq<Event>, n: nat)
    requires n <= |events|
  {
    && (forall g: nat | g < |s.subs| && s.subs[g].open ::
          s.subs[g].cursor == Advance(s.subs[g].since, Sent(events, g, n)))
    && forall g: nat | |s.subs| <= g :: Sent(events, g, n) == []
  }

  lemma SentBy(events: seq<Event>, g: nat, n: nat)
    requires n < |events|
    ensures Sent(events, g, n + 1)
            == Sent(events, g, n)
               + if events[n].Receive? && events[n].g == g then Delivered(events[n].rec) else []
  {
  }

  lemma DeliveryMovesCursor(s: State, e: Event)
    requires Enabled(s, e) && Ordered(s) && Delivers(s, e)
    ensures Step(s, e).stopped == s.stopped
    ensures Step(s, e).subs == s.subs[e.g := s.subs[e.g].(acknowledged := true,
                                                         cursor := Advance(s.subs[e.g].cursor, Delivered(e.rec)))]
  {
    var sub := s.subs[e.g].(acknowledged := true, cursor := Advance(s.subs[e.g].cursor, Delivered(e.rec)));
    RenderKeepsOrder(s.(subs := s.subs[e.g := sub]), Delivered(e.rec));
  }

  lemma DeliveryKeepsCursors(s: State, events: seq<Event>, n: nat, g: nat)
    requires n < |events| && Enabled(s, events[n]) && Ordered(s) && CursorsAreSent(s, events, n)
    requires Delivers(s, events[n]) && g < |s.subs| && s.subs[g].open
    ensures g < |Step(s, events[n]).subs|
    ensures Step(s, events[n]).subs[g].cursor == Advance(Step(s, events[n]).subs[g].since, Sent(events, g, n + 1))
  {
    var e := events[n];
    SentBy(events, g, n);
    DeliveryMovesCursor(s, e);
    if e.g == g {
      InOrderSplits([], s.subs[g].since, Sent(events, g, n), Delivered(e.rec));
    } else {
      assert Sent(events, g, n) + [] == Sent(events, g, n);
    }
  }

  /** Where nothing is delivered an open stream is a new one, or as it was. */
  lemma SilentStep(s: State, e: Event, g: nat)
    requires Enabled(s, e) && !Delivers(s, e) && g < |Step(s, e).subs| && Step(s, e).subs[g].open
    ensures var sub := Step(s, e).subs[g];
            if g < |s.subs| then
              sub.cursor == s.subs[g].cursor && sub.since == s.subs[g].since && s.subs[g].open
              && !(e.Receive? && e.g == g)
            else g == |s.subs| && sub.cursor == sub.since && !e.Receive?
  {
  }

  lemma StepKeepsCursors(s: State, events: seq<Event>, n: nat, g: nat)
    requires n < |events| && Enabled(s, events[n]) && Ordered(s) && CursorsAreSent(s, events, n)
    requires g < |Step(s, events[n]).subs| && Step(s, events[n]).subs[g].open
    ensures Step(s, events[n]).subs[g].cursor == Advance(Step(s, events[n]).subs[g].since, Sent(events, g, n + 1))
  {
    if Delivers(s, events[n]) {
      DeliveryMovesCursor(s, events[n]);
      DeliveryKeepsCursors(s, events, n, g);
    } else {
      SilentStep(s, events[n], g);
      SentBy(events, g, n);
      assert Sent(events, g, n) + [] == Sent(events, g, n);
    }
  }

  lemma {:induction false} RunKeepsCursors(states: seq<State>, events: seq<Event>, n: nat)
    requires Run(states, events) && n <= |events|
    ensures CursorsAreSent(states[n], events, n)
  {
    if n > 0 {
      RunKeepsCursors(states, events, n - 1);
      RendersInOrder(states, events, n - 1);
      forall g: nat | g < |states[n].subs| && states[n].subs[g].open
        ensures states[n].subs[g].cursor == Advance(states[n].subs[g].since, Sent(events, g, n))
      {
        StepKeepsCursors(states[n - 1], events, n - 1, g);
      }
      forall g: nat | |states[n].subs| <= g ensures Sent(events, g, n) == [] {
        StepOnlyAdds(states[n - 1], events[n - 1]);
      }
    }
  }

  lemma StepOnlyAdds(s: State, e: Event)
    requires Enabled(s, e) && Ordered(s)
    ensures |s.subs| <= |Step(s, e).subs|
    ensures forall g | 0 <= g < |s.subs| :: Step(s, e).subs[g].since == s.subs[g].since
  {
    if Delivers(s, e) {
      DeliveryMovesCursor(s, e);
    }
  }

  /** A server that keeps its contract sends each record in order behind the stream's cursor. */
  lemma ContractIsHonest(states: seq<State>, events: seq<Event>, log: seq<int>, k: nat)
    requires Run(states, events) && KeepsContract(states, events, log) && k < |events|
    ensures Honest(states[k], events[k], log)
  {
    if events[k].Receive? {
      var g := events[k].g;
      RunKeepsCursors(states, events, k);
      RendersInOrder(states, events, k);
      StepOnlyAdds(states[k], events[k]);
      assert InOrder(log, states[k + 1].subs[g].since, Sent(events, g, k + 1));
      SentBy(events, g, k);
      InOrderSplits(log, states[k].subs[g].since, Sent(events, g, k), Delivered(events[k].rec));
    }
  }

  /** With a server that keeps its contract the output is a contiguous stretch of the log, through all recoveries. */
  lemma RendersContiguously(states: seq<State>, events: seq<Event>, log: seq<int>, i: nat)
    requires Run(states, events) && i <= |events| && IsLog(log) && KeepsContract(states, events, log)
    ensures Contiguous(log, states[i].output)
  {
    forall k: nat | k < |events| ensures Honest(states[k], events[k], log) {
      ContractIsHonest(states, events, log, k);
    }
    RendersWithoutGap(states, events, log, i);
  }

  /** An id above all rendered and all sent before it is rendered; nothing else is, and nothing is taken back. */
  lemma {:induction false} RenderExactly(s: State, ids: seq<int>)
    ensures s.output <= Render(s, ids).output
    ensures forall k | 0 <= k < |ids| && ids[k] > s.lastRendered && (forall j | 0 <= j < k :: ids[j] < ids[k]) ::
              ids[k] in Render(s, ids).output
    ensures forall id | id in Render(s, ids).output :: id in s.output || (id in ids && id > s.lastRendered)
    decreases |ids|
  {
    if ids != [] {
      var id, rest := ids[0], ids[1..];
      var t := if id <= s.lastRendered then s else s.(lastRendered := id, output := s.output + [id]);
      RenderExactly(t, rest);
      forall k | 0 <= k < |ids| && ids[k] > s.lastRendered && (forall j | 0 <= j < k :: ids[j] < ids[k])
        ensures ids[k] in Render(s, ids).output
      {
        if k > 0 {
          assert forall j | 0 <= j < k - 1 :: rest[j] == ids[j + 1];
          assert rest[k - 1] == ids[k] && ids[0] < ids[k];
        } else {
          assert id in t.output;
        }
      }
    }
  }

  /**
   What a due record on the active generation does: of the ids it carries it
   renders those that are newer than all rendered and all before them in the
   record, and no other.
   */
  lemma DueRecordRenders(s: State, g: nat, rec: Rec, ids: seq<int>)
    requires Ordered(s) && Enabled(s, Receive(g, rec)) && s.active == Some(g)
    requires (rec == Ack(ids) && !s.subs[g].acknowledged)
             || (|ids| == 1 && rec == Payload(true, Some(ids[0])) && s.subs[g].acknowledged)
    ensures var s' := Step(s, Receive(g, rec));
            && s.output <= s'.output
            && (forall k | 0 <= k < |ids| && ids[k] > s.lastRendered && (forall j | 0 <= j < k :: ids[j] < ids[k]) ::
                  ids[k] in s'.output)
            && (forall id | id in s'.output :: id in s.output || (id in ids && id > s.lastRendered))
  {
    var sub := s.subs[g].(acknowledged := true, cursor := Advance(s.subs[g].cursor, Delivered(rec)));
    assert rec.Payload? ==> ids == [ids[0]];
    RenderExactly(s.(subs := s.subs[g := sub]), ids);
  }

  // --------------------------------------------------------------- class

  class ChannelFollow {
    var lastRenderedSeq: int
    var active: Option<nat>
    var stopped: bool
    var subs: seq<Sub>
    var ended: Ended
    /** The ids handed to the caller's `render`, in order. */
    var output: seq<int>

    function View(): State
      reads this
    {
      State(lastRenderedSeq, active, stopped, subs, ended, output)
    }

    /** What was rendered is strictly increasing, and only the newest generation is active. */
    ghost predicate Valid()
      reads this
    {
      Ordered(View()) && NewestIsActive(View())
    }

    constructor ()
      ensures Valid() && View() == Init()
    {
      lastRenderedSeq, active, stopped, subs, ended, output := 0, None, false, [], Pending, [];
    }

    method RenderEvent(id: int)
      requires Valid()
      modifies this`lastRenderedSeq, this`output
      ensures Valid() && View() == Render(old(View()), [id])
      ensures output == if old(lastRenderedSeq) < id then old(output) + [id] else old(output)
    {
      RenderKeepsOrder(View(), [id]);
      if id <= lastRenderedSeq {
        return;
      }
      lastRenderedSeq := id;
      output := output + [id];
    }

    method RenderAll(events: seq<int>)
      requires Valid()
      modifies this`lastRenderedSeq, this`output
      ensures Valid() && View() == Render(old(View()), events)
    {
      for i := 0 to |events|
        invariant Valid() && Render(View(), events[i..]) == Render(old(View()), events)
      {
        assert events[i..][1..] == events[i + 1..];
        assert [events[i]][1..] == [];
        RenderEvent(events[i]);
      }
    }

    method AbortActive()
      modifies this`subs
      ensures subs == Abort(old(subs), active)
    {
      if active.Some? && active.value < |subs| {
        subs := subs[active.value := subs[active.value].(aborted := true)];
      }
    }

    method StreamFailed(g: nat)
      requires g < |subs|
      modifies this
      ensures View() == Fail(old(View()), g)
    {
      if !subs[g].aborted && active == Some(g) && ended == Pending {
        ended := Failed;
      }
      subs := subs[g := subs[g].(open := false)];
    }

    method SubscribeAgain(throws: bool)
      requires Valid()
      modifies this
      ensures Valid() && View() == Step(old(View()), Subscribe(throws))
      ensures output == old(output) && ended == old(ended) && active == Some(|old(subs)|)
    {
      StepKeepsOrder(View(), Subscribe(throws));
      ghost var next := Step(View(), Subscribe(throws));
      var generation := |subs|;
      AbortActive();
      var since := if lastRenderedSeq > 0 then Some(lastRenderedSeq) else None;
      subs := subs + [Sub(since, false, false, true, since)];
      if throws {
        StreamFailed(generation);
      }
      active := Some(generation);
      assert View() == next;
    }

    method LoopLeft(g: nat)
      requires g < |subs|
      modifies this
      ensures View() == Finish(old(View()), g)
    {
      if !subs[g].acknowledged {
        StreamFailed(g);
        return;
      }
      if active == Some(g) && !stopped && ended == Pending {
        ended := Resolved;
      }
      subs := subs[g := subs[g].(open := false)];
    }

    method ReceiveRecord(g: nat, rec: Rec)
      requires Valid() && Enabled(View(), Receive(g, rec))
      modifies this
      ensures Valid() && View() == Step(old(View()), Receive(g, rec))
      ensures old(output) <= output && (output != old(output) ==> old(active) == Some(g) == Some(|old(subs)| - 1))
      ensures ended != old(ended) ==> old(ended) == Pending && old(active) == Some(g)
      ensures rec.Ack? && old(active) == Some(g) && !old(subs)[g].acknowledged ==>
                forall k | 0 <= k < |rec.events| && rec.events[k] > old(lastRenderedSeq)
                             && (forall j | 0 <= j < k :: rec.events[j] < rec.events[k]) ::
                  rec.events[k] in output
      ensures rec.Payload? && rec.ours && rec.event.Some? && old(active) == Some(g) && old(subs)[g].acknowledged ==>
                rec.event.value <= old(lastRenderedSeq) || rec.event.value in output
    {
      ghost var before := View();
      StepKeepsOrder(View(), Receive(g, rec));
      if rec.Ack? && active == Some(g) && !subs[g].acknowledged {
        DueRecordRenders(before, g, rec, rec.events);
      } else if rec.Payload? && rec.ours && rec.event.Some? && active == Some(g) && subs[g].acknowledged {
        DueRecordRenders(before, g, rec, [rec.event.value]);
      }
      if rec.StreamFailure? {
        StreamFailed(g);
        return;
      }
      if rec.EndOfStream? || active != Some(g) {
        LoopLeft(g);
        return;
      }
      if rec.Ack? {
        if subs[g].acknowledged {
          StreamFailed(g);
          return;
        }
      } else if !subs[g].acknowledged {
        StreamFailed(g);
        return;
      }
      Deliver(g, rec);
    }

    /** A record of the due kind, on the active generation. */
    method Deliver(g: nat, rec: Rec)
      requires Valid() && Enabled(View(), Receive(g, rec)) && Delivers(View(), Receive(g, rec))
      modifies this
      ensures Valid() && View() == Step(old(View()), Receive(g, rec))
    {
      ghost var next := Step(View(), Receive(g, rec));
      var events := Delivered(rec);
      subs := subs[g := subs[g].(acknowledged := true, cursor := Advance(subs[g].cursor, events))];
      RenderAll(events);
      assert View() == next;
    }

    method StopFollowing()
      requires Valid()
      modifies this
      ensures Valid() && output == old(output) && View() == Step(old(View()), Stop)
    {
      StepKeepsOrder(View(), Stop);
      stopped := true;
      AbortActive();
    }
  }
}
