/**
 Model of the connect-link router: one delivery of a URL runs as a sequence of
 awaited effects, any number of deliveries interleave, and the process may be
 killed and restarted between any two of them.

 The durable replay marker (`consumed`) survives a restart; the claims do not.
 `parses` stands for the link parser: false where it throws or returns nothing.
 */
module ConnectLinkRouter {
  datatype Outcome = Replay | Presented | Connected | Threw | Lost

  datatype Pc = CheckingReplay | ReadingApproval | Marking | Connecting | Done(outcome: Outcome)

  /** `unmarked`: the marker was absent when the delivery began its replay check. */
  datatype Delivery<Url> = Delivery(url: Url, pc: Pc, unmarked: bool)

  /** `accepted` holds the URLs whose approval this process accepted. */
  datatype State<Url> = State(
    consumed: set<Url>,
    claimed: set<Url>,
    accepted: set<Url>,
    deliveries: seq<Delivery<Url>>,
    connects: seq<Url>)

  datatype Check = Seen | Unseen | CheckFailed

  datatype Event<Url> =
    | Deliver(url: Url)
    | ReplayChecked(d: nat, check: Check)
    | ApprovalRead(d: nat, approved: bool)
    | MarkerWritten(d: nat)
    | MarkReturned(d: nat, ok: bool)
    | ConnectReturned(d: nat, ok: bool)
    | Restart

  function Init<Url>(): State<Url> {
    State({}, {}, {}, [], [])
  }

  /**
   What the injected effects promise: the replay check reports a marker that
   was there when it began, and the marking call returns normally only once
   the marker is durable.  Everything else is up to the environment.
   */
  predicate Enabled<Url(==)>(s: State<Url>, e: Event<Url>) {
    match e
    case Deliver(_) => true
    case ReplayChecked(d, check) =>
      d < |s.deliveries| && s.deliveries[d].pc == CheckingReplay && (check == Unseen ==> s.deliveries[d].unmarked)
    case ApprovalRead(d, _) => d < |s.deliveries| && s.deliveries[d].pc == ReadingApproval
    case MarkerWritten(d) => d < |s.deliveries| && s.deliveries[d].pc == Marking
    case MarkReturned(d, ok) =>
      d < |s.deliveries| && s.deliveries[d].pc == Marking && (ok ==> s.deliveries[d].url in s.consumed)
    case ConnectReturned(d, _) => d < |s.deliveries| && s.deliveries[d].pc == Connecting
    case Restart => true
  }

  function Go<Url>(s: State<Url>, d: nat, pc: Pc): State<Url>
    requires d < |s.deliveries|
  {
    s.(deliveries := s.deliveries[d := s.deliveries[d].(pc := pc)])
  }

  function Kill<Url>(ds: seq<Delivery<Url>>): (killed: seq<Delivery<Url>>)
    ensures |killed| == |ds|
    ensures forall i | 0 <= i < |ds| ::
              killed[i] == if ds[i].pc.Done? then ds[i] else ds[i].(pc := Done(Lost))
  {
    seq(|ds|, i requires 0 <= i < |ds| => if ds[i].pc.Done? then ds[i] else ds[i].(pc := Done(Lost)))
  }

  function Step<Url(==)>(s: State<Url>, e: Event<Url>, parses: Url -> bool): State<Url>
    requires Enabled(s, e)
  {
    match e
    case Deliver(url) =>
      s.(deliveries := s.deliveries + [Delivery(url, CheckingReplay, url !in s.consumed)])
    case ReplayChecked(d, check) =>
      var url := s.deliveries[d].url;
      (match check
       case Seen => Go(s, d, Done(Replay))
       case CheckFailed => Go(s, d, Done(Threw))
       case Unseen =>
         if !parses(url) then Go(s, d, Done(Presented))
         else if url in s.claimed then Go(s, d, Done(Replay))
         else Go(s.(claimed := s.claimed + {url}), d, ReadingApproval))
    case ApprovalRead(d, approved) =>
      var url := s.deliveries[d].url;
      if approved then Go(s.(accepted := s.accepted + {url}), d, Marking)
      else Go(s.(claimed := s.claimed - {url}), d, Done(Presented))
    case MarkerWritten(d) => s.(consumed := s.consumed + {s.deliveries[d].url})
    case MarkReturned(d, ok) =>
      if ok then Go(s.(connects := s.connects + [s.deliveries[d].url]), d, Connecting)
      else Go(s, d, Done(Threw))
    case ConnectReturned(d, ok) => Go(s, d, Done(if ok then Connected else Threw))
    case Restart => s.(claimed := {}, accepted := {}, deliveries := Kill(s.deliveries))
  }

  // ----------------------------------------------------------- invariant

  /** The claim holder: past the claim and not finished. */
  predicate Holds(pc: Pc) {
    pc.ReadingApproval? || pc.Marking? || pc.Connecting?
  }

  ghost predicate Claims<Url>(s: State<Url>, parses: Url -> bool) {
    && s.accepted <= s.claimed
    && (forall u | u in s.claimed :: parses(u))
    && (forall d | 0 <= d < |s.deliveries| && Holds(s.deliveries[d].pc) ::
          s.deliveries[d].url in s.claimed
              && (s.deliveries[d].pc.ReadingApproval? <==> s.deliveries[d].url !in s.accepted))
    && (forall c, d | 0 <= c < d < |s.deliveries| && Holds(s.deliveries[c].pc) && Holds(s.deliveries[d].pc) ::
          s.deliveries[c].url != s.deliveries[d].url)
  }

  /** A URL that was connected can never again get past replay check and claim. */
  ghost predicate Spent<Url>(s: State<Url>) {
    && (forall u | u in s.connects :: u in s.consumed)
    && (forall u | u in s.connects && u !in s.accepted ::
          forall d | 0 <= d < |s.deliveries| && s.deliveries[d].url == u ::
            !Holds(s.deliveries[d].pc) && (s.deliveries[d].pc == CheckingReplay ==> !s.deliveries[d].unmarked))
    && (forall d | 0 <= d < |s.deliveries| && s.deliveries[d].pc.Marking? :: s.deliveries[d].url !in s.connects)
    && (forall i, j | 0 <= i < j < |s.connects| :: s.connects[i] != s.connects[j])
  }

  ghost predicate Inv<Url>(s: State<Url>, parses: Url -> bool) {
    Claims(s, parses) && Spent(s)
  }

  lemma RestartKeepsClaims<Url>(s: State<Url>, parses: Url -> bool)
    requires Claims(s, parses)
    ensures Claims(Step(s, Restart, parses), parses)
  {
  }

  lemma ReplayCheckKeepsClaims<Url>(s: State<Url>, e: Event<Url>, parses: Url -> bool)
    requires Claims(s, parses) && Enabled(s, e) && e.ReplayChecked?
    ensures Claims(Step(s, e, parses), parses)
  {
  }

  /** An approval keeps the claim; a refusal gives up what the delivery alone holds. */
  lemma ApprovalKeepsClaims<Url>(s: State<Url>, e: Event<Url>, parses: Url -> bool)
    requires Claims(s, parses) && Enabled(s, e) && e.ApprovalRead?
    ensures Claims(Step(s, e, parses), parses)
  {
  }

  lemma StepKeepsClaims<Url>(s: State<Url>, e: Event<Url>, parses: Url -> bool)
    requires Inv(s, parses) && Enabled(s, e)
    ensures Claims(Step(s, e, parses), parses)
  {
    if e.Restart? {
      RestartKeepsClaims(s, parses);
    } else if e.ReplayChecked? {
      ReplayCheckKeepsClaims(s, e, parses);
    } else if e.ApprovalRead? {
      ApprovalKeepsClaims(s, e, parses);
    }
  }

  lemma RestartKeepsSpent<Url>(s: State<Url>, parses: Url -> bool)
    requires Inv(s, parses)
    ensures Spent(Step(s, Restart, parses))
  {
  }

  lemma ConnectKeepsSpent<Url>(s: State<Url>, e: Event<Url>, parses: Url -> bool)
    requires Inv(s, parses) && Enabled(s, e) && e.MarkReturned? && e.ok
    ensures Spent(Step(s, e, parses))
  {
    var s' := Step(s, e, parses);
    assert forall u | u in s'.connects :: u in s.connects || u == s.deliveries[e.d].url;
  }

  lemma ReplayCheckKeepsSpent<Url>(s: State<Url>, e: Event<Url>, parses: Url -> bool)
    requires Inv(s, parses) && Enabled(s, e) && e.ReplayChecked?
    ensures Spent(Step(s, e, parses))
  {
  }

  lemma ApprovalKeepsSpent<Url>(s: State<Url>, e: Event<Url>, parses: Url -> bool)
    requires Inv(s, parses) && Enabled(s, e) && e.ApprovalRead?
    ensures Spent(Step(s, e, parses))
  {
  }

  lemma StepKeepsSpent<Url>(s: State<Url>, e: Event<Url>, parses: Url -> bool)
    requires Inv(s, parses) && Enabled(s, e)
    ensures Spent(Step(s, e, parses))
  {
    if e.Restart? {
      RestartKeepsSpent(s, parses);
    } else if e.MarkReturned? && e.ok {
      ConnectKeepsSpent(s, e, parses);
    } else if e.ReplayChecked? {
      ReplayCheckKeepsSpent(s, e, parses);
    } else if e.ApprovalRead? {
      ApprovalKeepsSpent(s, e, parses);
    }
  }

  // ---------------------------------------------------------------- runs

  ghost predicate Run<Url(!new)>(states: seq<State<Url>>, events: seq<Event<Url>>, parses: Url -> bool) {
    && |states| == |events| + 1
    && states[0] == Init()
    && forall i | 0 <= i < |events| ::
         Enabled(states[i], events[i]) && states[i + 1] == Step(states[i], events[i], parses)
  }

  lemma {:induction false} RunKeepsInv<Url(!new)>(
      states: seq<State<Url>>, events: seq<Event<Url>>, parses: Url -> bool, i: nat)
    requires Run(states, events, parses) && i <= |events|
    ensures Inv(states[i], parses)
  {
    if i > 0 {
      RunKeepsInv(states, events, parses, i - 1);
      StepKeepsClaims(states[i - 1], events[i - 1], parses);
      StepKeepsSpent(states[i - 1], events[i - 1], parses);
    }
  }

  /** Over all deliveries and restarts, no URL is ever connected twice, nor before its marker is durable. */
  lemma ConnectsAtMostOnce<Url(!new)>(
      states: seq<State<Url>>, events: seq<Event<Url>>, parses: Url -> bool, i: nat)
    requires Run(states, events, parses) && i <= |events|
    ensures forall j, k | 0 <= j < k < |states[i].connects| :: states[i].connects[j] != states[i].connects[k]
    ensures forall u | u in states[i].connects :: u in states[i].consumed
  {
    RunKeepsInv(states, events, parses, i);
  }

  lemma {:induction false} AcceptanceLasts<Url(!new)>(
      states: seq<State<Url>>, events: seq<Event<Url>>, parses: Url -> bool, i: nat, j: nat, url: Url)
    requires Run(states, events, parses) && i < j <= |events|
    requires events[i].ApprovalRead? && events[i].approved && states[i].deliveries[events[i].d].url == url
    requires forall k | i < k < j :: !events[k].Restart?
    ensures url in states[j].accepted
    decreases j
  {
    if i + 1 < j {
      AcceptanceLasts(states, events, parses, i, j - 1, url);
    }
  }

  /** Once a delivery's approval is accepted, no delivery in that process presents its URL. */
  lemma AcceptedNeverPresented<Url(!new)>(
      states: seq<State<Url>>, events: seq<Event<Url>>, parses: Url -> bool, i: nat, j: nat)
    requires Run(states, events, parses) && i < j < |events|
    requires events[i].ApprovalRead? && events[i].approved
    requires forall k | i < k < j :: !events[k].Restart?
    ensures forall d | 0 <= d < |states[j].deliveries|
                       && states[j].deliveries[d].url == states[i].deliveries[events[i].d].url
                       && states[j].deliveries[d].pc != Done(Presented) ::
              d < |states[j + 1].deliveries| && states[j + 1].deliveries[d].pc != Done(Presented)
  {
    AcceptanceLasts(states, events, parses, i, j, states[i].deliveries[events[i].d].url);
    RunKeepsInv(states, events, parses, j);
  }

  /** The durable markers are those that deliveries have written, restarts or not. */
  lemma {:induction false} MarkersExactly<Url(!new)>(
      states: seq<State<Url>>, events: seq<Event<Url>>, parses: Url -> bool, i: nat, url: Url)
    requires Run(states, events, parses) && i <= |events|
    ensures url in states[i].consumed <==>
            exists k | 0 <= k < i :: events[k].MarkerWritten? && states[k].deliveries[events[k].d].url == url
  {
    if i > 0 {
      MarkersExactly(states, events, parses, i - 1, url);
    }
  }

  /** A delivery begins with its replay check, which may find the URL unmarked only if no marker was durable then. */
  lemma DeliveryBegins<Url(!new)>(
      states: seq<State<Url>>, events: seq<Event<Url>>, parses: Url -> bool, k: nat)
    requires Run(states, events, parses) && k < |events| && events[k].Deliver?
    ensures var d := |states[k].deliveries|;
            && d < |states[k + 1].deliveries|
            && states[k + 1].deliveries[d].url == events[k].url && states[k + 1].deliveries[d].pc == CheckingReplay
            && (Enabled(states[k + 1], ReplayChecked(d, Unseen)) <==> events[k].url !in states[k].consumed)
  {
  }

  /** What becomes of a delivery, and from what: `next` is its state after event `k`. */
  lemma DeliveryGoesExactly<Url(!new)>(
      states: seq<State<Url>>, events: seq<Event<Url>>, parses: Url -> bool, k: nat, d: nat)
    requires Run(states, events, parses) && k < |events| && d < |states[k].deliveries|
    requires !states[k].deliveries[d].pc.Done? && !events[k].Restart?
    ensures d < |states[k + 1].deliveries| && states[k + 1].deliveries[d].url == states[k].deliveries[d].url
    ensures var s, e, url, next := states[k], events[k], states[k].deliveries[d].url, states[k + 1].deliveries[d].pc;
            && (next == Done(Replay) <==>
                  e == ReplayChecked(d, Seen) || (e == ReplayChecked(d, Unseen) && parses(url) && url in s.claimed))
            && (next == Done(Presented) <==>
                  (e == ReplayChecked(d, Unseen) && !parses(url)) || e == ApprovalRead(d, false))
            && (next == Done(Connected) <==> e == ConnectReturned(d, true))
            && (next == Done(Threw) <==>
                  e == ReplayChecked(d, CheckFailed) || e == MarkReturned(d, false) || e == ConnectReturned(d, false))
            && (next.Done? ==> next.outcome != Lost)
            && (e == ReplayChecked(d, Unseen) && !next.Done? ==> next == ReadingApproval)
            && (e == ApprovalRead(d, true) ==> next == Marking)
            && (e == ApprovalRead(d, false) ==> url !in states[k + 1].claimed)
            && (e == MarkReturned(d, true) ==> next == Connecting)
  {
  }

  /** What a delivery awaits may answer in any way: only a marker may bar one answer, its absence another. */
  lemma AnswersMayCome<Url>(s: State<Url>, d: nat, ok: bool)
    requires d < |s.deliveries|
    ensures s.deliveries[d].pc == CheckingReplay ==>
              Enabled(s, ReplayChecked(d, Seen)) && Enabled(s, ReplayChecked(d, CheckFailed))
    ensures s.deliveries[d].pc == ReadingApproval ==> Enabled(s, ApprovalRead(d, ok))
    ensures s.deliveries[d].pc == Marking ==>
              Enabled(s, MarkerWritten(d)) && Enabled(s, MarkReturned(d, false))
              && (s.deliveries[d].url in s.consumed ==> Enabled(s, MarkReturned(d, true)))
    ensures s.deliveries[d].pc == Connecting ==> Enabled(s, ConnectReturned(d, ok))
    ensures Enabled(s, Restart) && Enabled(s, Deliver(s.deliveries[d].url))
  {
  }

  /** A restart ends every delivery and forgets the claims and acceptances; markers and connects stay. */
  lemma RestartForgets<Url(!new)>(
      states: seq<State<Url>>, events: seq<Event<Url>>, parses: Url -> bool, k: nat)
    requires Run(states, events, parses) && k < |events| && events[k].Restart?
    ensures var s, s' := states[k], states[k + 1];
            && s'.claimed == {} && s'.accepted == {} && s'.consumed == s.consumed && s'.connects == s.connects
            && |s'.deliveries| == |s.deliveries|
            && forall d | 0 <= d < |s.deliveries| ::
                 s'.deliveries[d].pc == if s.deliveries[d].pc.Done? then s.deliveries[d].pc else Done(Lost)
  {
  }

  /** Connecting, and having connected, means that the URL was handed to the connect effect. */
  lemma {:induction false} ConnectingIsRecorded<Url(!new)>(
      states: seq<State<Url>>, events: seq<Event<Url>>, parses: Url -> bool, i: nat, d: nat)
    requires Run(states, events, parses) && i <= |events| && d < |states[i].deliveries|
    requires states[i].deliveries[d].pc == Connecting || states[i].deliveries[d].pc == Done(Connected)
    ensures states[i].deliveries[d].url in states[i].connects
  {
    if i > 0 {
      var s, e := states[i - 1], events[i - 1];
      assert states[i] == Step(s, e, parses);
      if d < |s.deliveries| && (s.deliveries[d].pc == Connecting || s.deliveries[d].pc == Done(Connected)) {
        ConnectingIsRecorded(states, events, parses, i - 1, d);
      }
    }
  }

  /** A delivery whose marking returned well is connected, for good. */
  lemma {:induction false} MarkedIsConnected<Url(!new)>(
      states: seq<State<Url>>, events: seq<Event<Url>>, parses: Url -> bool, k: nat, j: nat)
    requires Run(states, events, parses) && k < j <= |events| && events[k].MarkReturned? && events[k].ok
    ensures states[k].deliveries[events[k].d].url in states[j].connects
    decreases j
  {
    if k + 1 < j {
      MarkedIsConnected(states, events, parses, k, j - 1);
    }
  }

  /** A URL is held back only by a delivery that is asking for its approval or by an acceptance of this process. */
  ghost predicate ClaimsHeld<Url>(s: State<Url>) {
    forall u | u in s.claimed ::
      u in s.accepted
      || exists d | 0 <= d < |s.deliveries| :: s.deliveries[d].url == u && s.deliveries[d].pc == ReadingApproval
  }

  ghost predicate AsksFor<Url>(s: State<Url>, d: nat, u: Url) {
    d < |s.deliveries| && s.deliveries[d].url == u && s.deliveries[d].pc == ReadingApproval
  }

  lemma StepKeepsClaimHeld<Url>(s: State<Url>, e: Event<Url>, parses: Url -> bool, u: Url) returns (d: nat)
    requires Inv(s, parses) && Enabled(s, e) && ClaimsHeld(s)
    requires u in Step(s, e, parses).claimed && u !in Step(s, e, parses).accepted
    ensures AsksFor(Step(s, e, parses), d, u)
  {
    if u in s.claimed {
      d :| 0 <= d < |s.deliveries| && s.deliveries[d].url == u && s.deliveries[d].pc == ReadingApproval;
    } else {
      d := e.d;
    }
  }

  lemma StepKeepsClaimsHeld<Url>(s: State<Url>, e: Event<Url>, parses: Url -> bool)
    requires Inv(s, parses) && Enabled(s, e) && ClaimsHeld(s)
    ensures ClaimsHeld(Step(s, e, parses))
  {
    var s' := Step(s, e, parses);
    forall u | u in s'.claimed && u !in s'.accepted
      ensures exists d | 0 <= d < |s'.deliveries| ::
                s'.deliveries[d].url == u && s'.deliveries[d].pc == ReadingApproval
    {
      var d := StepKeepsClaimHeld(s, e, parses, u);
      assert AsksFor(s', d, u);
    }
  }

  lemma {:induction false} ClaimsAreHeld<Url(!new)>(
      states: seq<State<Url>>, events: seq<Event<Url>>, parses: Url -> bool, i: nat)
    requires Run(states, events, parses) && i <= |events|
    ensures ClaimsHeld(states[i])
  {
    if i > 0 {
      ClaimsAreHeld(states, events, parses, i - 1);
      RunKeepsInv(states, events, parses, i - 1);
      StepKeepsClaimsHeld(states[i - 1], events[i - 1], parses);
    }
  }

  // --------------------------------------------------------------- class

  /** The host that runs the deliveries and owns the claim set. */
  class LinkHost<Url(==)> {
    const parses: Url -> bool
    var consumed: set<Url>
    var claimed: set<Url>
    var accepted: set<Url>
    var deliveries: seq<Delivery<Url>>
    var connects: seq<Url>

    function View(): State<Url>
      reads this
    {
      State(consumed, claimed, accepted, deliveries, connects)
    }

    ghost predicate Valid()
      reads this
    {
      Inv(View(), parses)
    }

    constructor (parses: Url -> bool)
      ensures Valid() && View() == Init() && this.parses == parses
    {
      this.parses := parses;
      consumed, claimed, accepted, deliveries, connects := {}, {}, {}, [], [];
    }

    method Finish(d: nat, outcome: Outcome)
      requires d < |deliveries|
      modifies this`deliveries
      ensures View() == Go(old(View()), d, Done(outcome))
    {
      deliveries := deliveries[d := deliveries[d].(pc := Done(outcome))];
    }

    method Route(url: Url) returns (d: nat)
      requires Valid()
      modifies this
      ensures Valid() && View() == Step(old(View()), Deliver(url), parses) && d == |old(deliveries)|
    {
      StepKeepsClaims(View(), Deliver(url), parses);
      StepKeepsSpent(View(), Deliver(url), parses);
      d := |deliveries|;
      deliveries := deliveries + [Delivery(url, CheckingReplay, url !in consumed)];
    }

    /** The segment after `await consumeReplay`. */
    method AfterReplayCheck(d: nat, check: Check)
      requires Valid() && Enabled(View(), ReplayChecked(d, check))
      modifies this
      ensures Valid() && View() == Step(old(View()), ReplayChecked(d, check), parses)
    {
      StepKeepsClaims(View(), ReplayChecked(d, check), parses);
      StepKeepsSpent(View(), ReplayChecked(d, check), parses);
      var url := deliveries[d].url;
      if check == CheckFailed {
        Finish(d, Threw);
        return;
      }
      if check == Seen {
        Finish(d, Replay);
        return;
      }
      if !parses(url) {
        Finish(d, Presented);
        return;
      }
      if url in claimed {
        Finish(d, Replay);
        return;
      }
      claimed := claimed + {url};
      deliveries := deliveries[d := deliveries[d].(pc := ReadingApproval)];
    }

    /** The segment after `await consumeUsbApproval`; a rejection counts as no approval. */
    method AfterApproval(d: nat, approved: bool)
      requires Valid() && Enabled(View(), ApprovalRead(d, approved))
      modifies this
      ensures Valid() && View() == Step(old(View()), ApprovalRead(d, approved), parses)
    {
      StepKeepsClaims(View(), ApprovalRead(d, approved), parses);
      StepKeepsSpent(View(), ApprovalRead(d, approved), parses);
      var url := deliveries[d].url;
      if !approved {
        claimed := claimed - {url};
        Finish(d, Presented);
        return;
      }
      accepted := accepted + {url};
      deliveries := deliveries[d := deliveries[d].(pc := Marking)];
    }

    method MarkDurable(d: nat)
      requires Valid() && Enabled(View(), MarkerWritten(d))
      modifies this`consumed
      ensures Valid() && View() == Step(old(View()), MarkerWritten(d), parses)
    {
      StepKeepsClaims(View(), MarkerWritten(d), parses);
      StepKeepsSpent(View(), MarkerWritten(d), parses);
      consumed := consumed + {deliveries[d].url};
    }

    /** The segment after `await markConsumed`: connect, unless marking or the approval callback threw. */
    method AfterMark(d: nat, ok: bool)
      requires Valid() && Enabled(View(), MarkReturned(d, ok))
      modifies this
      ensures Valid() && View() == Step(old(View()), MarkReturned(d, ok), parses)
    {
      StepKeepsClaims(View(), MarkReturned(d, ok), parses);
      StepKeepsSpent(View(), MarkReturned(d, ok), parses);
      if !ok {
        Finish(d, Threw);
        return;
      }
      connects := connects + [deliveries[d].url];
      deliveries := deliveries[d := deliveries[d].(pc := Connecting)];
    }

    method AfterConnect(d: nat, ok: bool)
      requires Valid() && Enabled(View(), ConnectReturned(d, ok))
      modifies this
      ensures Valid() && View() == Step(old(View()), ConnectReturned(d, ok), parses)
    {
      StepKeepsClaims(View(), ConnectReturned(d, ok), parses);
      StepKeepsSpent(View(), ConnectReturned(d, ok), parses);
      Finish(d, if ok then Connected else Threw);
    }

    method RestartProcess()
      requires Valid()
      modifies this
      ensures Valid() && View() == Step(old(View()), Restart, parses)
    {
      StepKeepsClaims(View(), Restart, parses);
      StepKeepsSpent(View(), Restart, parses);
      claimed, accepted := {}, {};
      deliveries := Kill(deliveries);
    }
  }
}
