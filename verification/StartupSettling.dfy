/**
 Model of the loop that settles a system test's startup: read the creation
 review, resolve the managed install reviews, ask the doctor, and wait for the
 next change.  The environment answers the awaited calls, and announces
 changes at any time.
 */
module StartupSettling {
  import opened Results
  import opened Selection
  import ApprovalPort

  // ---------------------------------------------------------- observations

  datatype Part = Part(identityKey: string, effectiveVersion: string, change: string, title: string)

  datatype Approval = Approval(kind: string, mode: string, callerId: string, approvalId: string, parts: seq<Part>)

  datatype Status = NotRequired | Pending | Resolved | FailedReview | Unresolved

  /** `statuses` are the string statuses of the check's structured data. */
  datatype Check = Check(name: string, ok: bool, detail: string, statuses: seq<string>)

  datatype Doctor = Doctor(ok: bool, checks: seq<Check>)

  predicate Managed(a: Approval) {
    && a.kind == "unit-install-review" && a.mode == "adopt-root"
    && (a.callerId == "system:units" || a.callerId == "system:workspace-creation")
  }

  function ManagedOf(pending: seq<Approval>): (r: seq<Approval>)
    ensures forall a | a in r :: Managed(a) && a in pending
    ensures r == [] <==> forall a | a in pending :: !Managed(a)
  {
    if pending == [] then []
    else
      var n := |pending| - 1;
      if Managed(pending[n]) then ManagedOf(pending[..n]) + [pending[n]] else ManagedOf(pending[..n])
  }

  ghost function ManagedAt(pending: seq<Approval>): set<nat> {
    set k: nat |
      && k < |pending| && pending[k].kind == "unit-install-review" && pending[k].mode == "adopt-root"
      && (pending[k].callerId == "system:units" || pending[k].callerId == "system:workspace-creation")
  }

  /** The filter keeps the managed reviews, all of them, in order. */
  lemma {:induction false} ManagedExactly(pending: seq<Approval>)
    ensures Chosen(pending, ManagedAt(pending), ManagedOf(pending))
  {
    if pending != [] {
      var front, last := pending[..|pending| - 1], pending[|pending| - 1];
      ManagedExactly(front);
      ChosenNext(front, ManagedAt(front), ManagedAt(pending), ManagedOf(front), last);
      assert front + [last] == pending;
    }
  }

  /** What of a part is being admitted. */
  type Admitted = (string, string, string)

  /** What a review asks to admit. */
  datatype Fingerprint = Fingerprint(mode: string, parts: seq<Admitted>)

  function AdmittedParts(parts: seq<Part>): seq<Admitted> {
    if parts == [] then []
    else [(parts[0].identityKey, parts[0].effectiveVersion, parts[0].change)] + AdmittedParts(parts[1..])
  }

  function FingerprintOf(a: Approval): Fingerprint {
    Fingerprint(a.mode, AdmittedParts(a.parts))
  }

  /** The two reviews ask to admit the same: the mode, and part by part the identity, the version and the change. */
  ghost predicate SameRequest(a: Approval, b: Approval) {
    && a.mode == b.mode && |a.parts| == |b.parts|
    && forall i | 0 <= i < |a.parts| ::
         && a.parts[i].identityKey == b.parts[i].identityKey
         && a.parts[i].effectiveVersion == b.parts[i].effectiveVersion
         && a.parts[i].change == b.parts[i].change
  }

  lemma {:induction false} AdmittedExactly(parts: seq<Part>)
    ensures |AdmittedParts(parts)| == |parts|
    ensures forall i | 0 <= i < |parts| ::
              AdmittedParts(parts)[i] == (parts[i].identityKey, parts[i].effectiveVersion, parts[i].change)
  {
    if parts != [] {
      AdmittedExactly(parts[1..]);
    }
  }

  lemma FingerprintExactly(a: Approval, b: Approval)
    ensures FingerprintOf(a) == FingerprintOf(b) <==> SameRequest(a, b)
  {
    AdmittedExactly(a.parts);
    AdmittedExactly(b.parts);
    if SameRequest(a, b) {
      assert forall i | 0 <= i < |a.parts| :: AdmittedParts(a.parts)[i] == AdmittedParts(b.parts)[i];
    }
    if FingerprintOf(a) == FingerprintOf(b) {
      forall i | 0 <= i < |a.parts|
        ensures a.parts[i].identityKey == b.parts[i].identityKey
        ensures a.parts[i].effectiveVersion == b.parts[i].effectiveVersion && a.parts[i].change == b.parts[i].change
      {
        assert AdmittedParts(a.parts)[i] == AdmittedParts(b.parts)[i];
      }
    }
  }

  /** The first check of that name. */
  function Required(checks: seq<Check>): Option<nat> {
    if checks == [] then None
    else if checks[0].name == "required-extensions" then Some(0)
    else var r := Required(checks[1..]); if r.Some? then Some(r.value + 1) else None
  }

  /** Only the required extensions fail, and they are on their way; `transient` matches such a state. */
  predicate WaitsForBuilds(d: Doctor, transient: string -> bool) {
    var r := Required(d.checks);
    && r.Some? && r.value < |d.checks|
    && ((!d.checks[r.value].ok && transient(d.checks[r.value].detail))
        || exists s | s in d.checks[r.value].statuses :: transient(s))
    && forall i: nat | i < |d.checks| && !d.checks[i].ok :: i == r.value
  }

  /** Check `i` is the first for the required extensions. */
  ghost predicate IsRequired(checks: seq<Check>, i: nat) {
    && i < |checks| && checks[i].name == "required-extensions"
    && forall j | 0 <= j < i :: checks[j].name != "required-extensions"
  }

  lemma {:induction false} RequiredExactly(checks: seq<Check>, i: nat)
    ensures Required(checks) == Some(i) <==> IsRequired(checks, i)
  {
    if checks != [] && checks[0].name != "required-extensions" {
      if i > 0 {
        RequiredExactly(checks[1..], i - 1);
        assert forall j | 1 <= j < |checks| :: checks[j] == checks[1..][j - 1];
      }
    }
  }

  /** No check fails but the one for the required extensions, which fails or has a status for a passing reason. */
  ghost predicate OnlyBuildsMissing(d: Doctor, transient: string -> bool) {
    exists i: nat :: IsRequired(d.checks, i) && OnTheirWay(d.checks[i], transient)
      && forall j: nat | j < |d.checks| && j != i :: d.checks[j].ok
  }

  ghost predicate OnTheirWay(check: Check, transient: string -> bool) {
    (!check.ok && transient(check.detail)) || exists s | s in check.statuses :: transient(s)
  }

  lemma WaitsExactly(d: Doctor, transient: string -> bool)
    ensures WaitsForBuilds(d, transient) <==> OnlyBuildsMissing(d, transient)
  {
    var r := Required(d.checks);
    if r.Some? {
      RequiredExactly(d.checks, r.value);
    }
    forall i: nat | IsRequired(d.checks, i) ensures r == Some(i) {
      RequiredExactly(d.checks, i);
    }
  }

  predicate Complete(status: Status) {
    status == NotRequired || status == Resolved
  }

  // --------------------------------------------------------------- machine

  datatype Outcome = Returned(doctor: Doctor) | Threw | TimedOut

  datatype Pc =
    | NotStarted
    | Observing
    | ReadingReview
    | Listing
    | Resolving(next: nat)
    | ReadingDoctor
    | Parked(wait: nat)
    | Finished(outcome: Outcome)

  /**
   `considered` and `resolutions` are histories: the managed reviews the loop
   has dealt with and those it submitted.
   */
  datatype State = State(
    port: ApprovalPort.State,
    pc: Pc,
    observedRevision: nat,
    status: Status,
    reviews: seq<Approval>,
    fingerprints: map<string, Fingerprint>,
    approved: set<string>,
    approvedPartCount: nat,
    considered: seq<Approval>,
    resolutions: seq<Approval>)

  datatype Event =
    | Start
    | Subscribed
    | ReviewRead(status: Status)
    | Listed(pending: seq<Approval>)
    | ReviewResolved
    | DoctorRead(doctor: Doctor, late: bool)
    | Woken
    | CallFailed
    | Port(event: ApprovalPort.Event)

  function Init(): State {
    State(ApprovalPort.Init(), NotStarted, 0, Pending, [], map[], {}, 0, [], [])
  }

  predicate Enabled(s: State, e: Event) {
    match e
    case Start => s.pc == NotStarted
    case Subscribed => s.pc == Observing
    case ReviewRead(_) => s.pc == ReadingReview
    case Listed(_) => s.pc == Listing
    case ReviewResolved => s.pc.Resolving? && s.pc.next < |s.reviews|
    case DoctorRead(_, _) => s.pc == ReadingDoctor
    case Woken => s.pc.Parked? && s.pc.wait < |s.port.waits| && ApprovalPort.Settled(s.port, s.pc.wait)
    case CallFailed => s.pc.Observing? || s.pc.ReadingReview? || s.pc.Listing? || s.pc.Resolving? || s.pc.ReadingDoctor?
    case Port(event) => ApprovalPort.Enabled(s.port, event)
  }

  function Head(s: State): State {
    s.(observedRevision := s.port.revision, pc := ReadingReview)
  }

  /** The review is the one last resolved for its slot. */
  predicate Known(fingerprints: map<string, Fingerprint>, a: Approval) {
    a.approvalId in fingerprints && fingerprints[a.approvalId] == FingerprintOf(a)
  }

  /** Skip known reviews from the `i`-th on, up to the next to resolve. */
  function NextReview(s: State, i: nat): State
    requires i <= |s.reviews|
    decreases |s.reviews| - i
  {
    if i == |s.reviews| then s.(pc := ReadingDoctor)
    else if Known(s.fingerprints, s.reviews[i]) then NextReview(s.(considered := s.considered + [s.reviews[i]]), i + 1)
    else s.(pc := Resolving(i))
  }

  function Admit(s: State, a: Approval): State {
    s.(fingerprints := s.fingerprints[a.approvalId := FingerprintOf(a)],
       approved := s.approved + {a.approvalId},
       approvedPartCount := s.approvedPartCount + |a.parts|,
       considered := s.considered + [a],
       resolutions := s.resolutions + [a])
  }

  function Step(s: State, e: Event, transient: string -> bool): State
    requires Enabled(s, e)
  {
    match e
    case Start => s.(pc := Observing)
    case Subscribed => Head(s)
    case ReviewRead(status) =>
      if status == FailedReview || status == Unresolved then s.(status := status, pc := Finished(Threw))
      else s.(status := status, pc := Listing)
    case Listed(pending) => NextReview(s.(reviews := ManagedOf(pending)), 0)
    case ReviewResolved => NextReview(Admit(s, s.reviews[s.pc.next]), s.pc.next + 1)
    case DoctorRead(doctor, late) =>
      var settled := Complete(s.status) && s.reviews == [];
      if settled && (doctor.ok || !WaitsForBuilds(doctor, transient)) then s.(pc := Finished(Returned(doctor)))
      else if late then s.(pc := Finished(TimedOut))
      else s.(pc := Parked(|s.port.waits|), port := ApprovalPort.Step(s.port, ApprovalPort.Begin(s.observedRevision)))
    case Woken => Head(s)
    case CallFailed => s.(pc := Finished(Threw))
    case Port(event) => s.(port := ApprovalPort.Step(s.port, event))
  }

  // ------------------------------------------------------------ reference

  /** What the latest of `reviews` for a slot asks to admit. */
  function Latest(reviews: seq<Approval>, slot: string): Option<Fingerprint> {
    if reviews == [] then None
    else
      var last := reviews[|reviews| - 1];
      if last.approvalId == slot then Some(FingerprintOf(last)) else Latest(reviews[..|reviews| - 1], slot)
  }

  /** The reviews that differ from the one before them for the same slot. */
  function Changes(reviews: seq<Approval>): seq<Approval> {
    if reviews == [] then []
    else
      var front, last := reviews[..|reviews| - 1], reviews[|reviews| - 1];
      Changes(front) + if Latest(front, last.approvalId) == Some(FingerprintOf(last)) then [] else [last]
  }

  function PartCount(reviews: seq<Approval>): nat {
    if reviews == [] then 0 else PartCount(reviews[..|reviews| - 1]) + |reviews[|reviews| - 1].parts|
  }

  lemma Appended(reviews: seq<Approval>, a: Approval, slot: string)
    ensures Latest(reviews + [a], slot) ==
            if a.approvalId == slot then Some(FingerprintOf(a)) else Latest(reviews, slot)
    ensures Changes(reviews + [a]) ==
            Changes(reviews) + if Latest(reviews, a.approvalId) == Some(FingerprintOf(a)) then [] else [a]
    ensures PartCount(reviews + [a]) == PartCount(reviews) + |a.parts|
  {
    assert (reviews + [a])[..|reviews|] == reviews;
  }

  /** The fingerprints are those of the latest review of each slot. */
  ghost predicate Remembers(fingerprints: map<string, Fingerprint>, reviews: seq<Approval>) {
    forall slot ::
      Latest(reviews, slot) == if slot in fingerprints then Some(fingerprints[slot]) else None
  }

  lemma RemembersNext(fingerprints: map<string, Fingerprint>, reviews: seq<Approval>, a: Approval)
    requires Remembers(fingerprints, reviews)
    ensures Remembers(fingerprints[a.approvalId := FingerprintOf(a)], reviews + [a])
    ensures Known(fingerprints, a) <==> Latest(reviews, a.approvalId) == Some(FingerprintOf(a))
  {
    forall slot
      ensures var next := fingerprints[a.approvalId := FingerprintOf(a)];
              Latest(reviews + [a], slot) == if slot in next then Some(next[slot]) else None
    {
      Appended(reviews, a, slot);
    }
  }

  /** The loop's records say what it did: exactly the changed reviews were submitted. */
  ghost predicate Recorded(s: State) {
    && s.resolutions == Changes(s.considered)
    && Remembers(s.fingerprints, s.considered)
    && s.approvedPartCount == PartCount(s.resolutions)
    && SlotsAre(s.approved, s.resolutions)
    && (forall a | a in s.considered :: Managed(a))
  }

  lemma SkipRecords(s: State, a: Approval)
    requires Recorded(s) && Known(s.fingerprints, a) && Managed(a)
    ensures Recorded(s.(considered := s.considered + [a]))
  {
    RemembersNext(s.fingerprints, s.considered, a);
    assert s.fingerprints[a.approvalId := FingerprintOf(a)] == s.fingerprints;
    Appended(s.considered, a, a.approvalId);
    assert Changes(s.considered) + [] == Changes(s.considered);
  }

  ghost predicate SlotsAre(slots: set<string>, reviews: seq<Approval>) {
    forall slot :: slot in slots <==> exists a | a in reviews :: a.approvalId == slot
  }

  lemma SlotsGrow(slots: set<string>, reviews: seq<Approval>, a: Approval)
    requires SlotsAre(slots, reviews)
    ensures SlotsAre(slots + {a.approvalId}, reviews + [a])
  {
    forall slot ensures slot in slots + {a.approvalId} <==> exists r | r in reviews + [a] :: r.approvalId == slot {
      assert a in reviews + [a];
      if slot in slots {
        var r :| r in reviews && r.approvalId == slot;
        assert r in reviews + [a];
      }
    }
  }

  lemma AdmitRecords(s: State, a: Approval)
    requires Recorded(s) && !Known(s.fingerprints, a) && Managed(a)
    ensures Recorded(Admit(s, a))
  {
    RemembersNext(s.fingerprints, s.considered, a);
    Appended(s.considered, a, a.approvalId);
    Appended(s.resolutions, a, a.approvalId);
    SlotsGrow(s.approved, s.resolutions, a);
  }

  lemma {:induction false} NextReviewRecords(s: State, i: nat)
    requires Recorded(s) && i <= |s.reviews| && forall a | a in s.reviews :: Managed(a)
    ensures Recorded(NextReview(s, i))
    decreases |s.reviews| - i
  {
    if i < |s.reviews| && Known(s.fingerprints, s.reviews[i]) {
      SkipRecords(s, s.reviews[i]);
      NextReviewRecords(s.(considered := s.considered + [s.reviews[i]]), i + 1);
    }
  }

  // ------------------------------------------------------------ invariant

  ghost predicate Inv(s: State, transient: string -> bool) {
    && ApprovalPort.Inv(s.port) && s.observedRevision <= s.port.revision
    && Recorded(s) && (forall a | a in s.reviews :: Managed(a))
    && (s.pc.Parked? ==> s.pc.wait < |s.port.waits| && s.port.waits[s.pc.wait].after == s.observedRevision)
    && (s.pc.Resolving? ==> s.pc.next < |s.reviews| && !Known(s.fingerprints, s.reviews[s.pc.next]))
    && (s.pc.Finished? && s.pc.outcome.Returned? ==> Justified(s, s.pc.outcome.doctor, transient))
  }

  /** The observations under which the loop may return. */
  ghost predicate Justified(s: State, doctor: Doctor, transient: string -> bool) {
    Complete(s.status) && s.reviews == [] && (doctor.ok || !WaitsForBuilds(doctor, transient))
  }

  lemma {:induction false} NextReviewKeeps(s: State, i: nat)
    requires i <= |s.reviews|
    ensures var s' := NextReview(s, i);
            && s'.port == s.port && s'.observedRevision == s.observedRevision && s'.status == s.status
                && s'.reviews == s.reviews
            && s'.fingerprints == s.fingerprints
            && (s'.pc == ReadingDoctor
                || (s'.pc.Resolving? && s'.pc.next < |s.reviews| && !Known(s.fingerprints, s.reviews[s'.pc.next])))
    decreases |s.reviews| - i
  {
    if i < |s.reviews| && Known(s.fingerprints, s.reviews[i]) {
      NextReviewKeeps(s.(considered := s.considered + [s.reviews[i]]), i + 1);
    }
  }

  lemma ContinuesInv(s: State, t: State, i: nat, transient: string -> bool)
    requires Inv(s, transient) && t.port == s.port && t.observedRevision == s.observedRevision
    requires Recorded(t) && i <= |t.reviews| && forall a | a in t.reviews :: Managed(a)
    ensures Inv(NextReview(t, i), transient)
  {
    NextReviewRecords(t, i);
    NextReviewKeeps(t, i);
  }

  /** Steps that leave the records alone. */
  lemma MovesOnInv(s: State, t: State, transient: string -> bool)
    requires Inv(s, transient)
    requires t == s.(port := t.port, pc := t.pc, observedRevision := t.observedRevision, status := t.status)
    requires ApprovalPort.Inv(t.port) && t.observedRevision <= t.port.revision
    requires t.pc.Parked? ==> t.pc.wait < |t.port.waits| && t.port.waits[t.pc.wait].after == t.observedRevision
    requires t.pc.Resolving? ==> t.pc == s.pc
    requires t.pc.Finished? && t.pc.outcome.Returned? ==> Justified(t, t.pc.outcome.doctor, transient)
    ensures Inv(t, transient)
  {
  }

  lemma ListedKeepsInv(s: State, pending: seq<Approval>, transient: string -> bool)
    requires Inv(s, transient) && Enabled(s, Listed(pending))
    ensures Inv(Step(s, Listed(pending), transient), transient)
  {
    ContinuesInv(s, s.(reviews := ManagedOf(pending)), 0, transient);
  }

  lemma AdmitKeeps(s: State, transient: string -> bool)
    requires Inv(s, transient) && s.pc.Resolving?
    ensures s.pc.next < |s.reviews|
    ensures var t := Admit(s, s.reviews[s.pc.next]);
            Recorded(t) && t.port == s.port && t.observedRevision == s.observedRevision && t.reviews == s.reviews
  {
    AdmitRecords(s, s.reviews[s.pc.next]);
  }

  lemma AdmittedContinues(s: State, transient: string -> bool)
    requires Inv(s, transient) && s.pc.Resolving?
    ensures s.pc.next < |s.reviews|
    ensures Inv(NextReview(Admit(s, s.reviews[s.pc.next]), s.pc.next + 1), transient)
  {
    AdmitKeeps(s, transient);
    ContinuesInv(s, Admit(s, s.reviews[s.pc.next]), s.pc.next + 1, transient);
  }

  lemma ResolvedKeepsInv(s: State, transient: string -> bool)
    requires Inv(s, transient) && Enabled(s, ReviewResolved)
    ensures Inv(Step(s, ReviewResolved, transient), transient)
  {
    AdmittedContinues(s, transient);
  }

  lemma DoctorKeepsInv(s: State, doctor: Doctor, late: bool, transient: string -> bool)
    requires Inv(s, transient) && Enabled(s, DoctorRead(doctor, late))
    ensures Inv(Step(s, DoctorRead(doctor, late), transient), transient)
  {
    ApprovalPort.StepKeepsInv(s.port, ApprovalPort.Begin(s.observedRevision));
    MovesOnInv(s, Step(s, DoctorRead(doctor, late), transient), transient);
  }

  lemma PortKeepsInv(s: State, event: ApprovalPort.Event, transient: string -> bool)
    requires Inv(s, transient) && Enabled(s, Port(event))
    ensures Inv(Step(s, Port(event), transient), transient)
  {
    ApprovalPort.StepKeepsInv(s.port, event);
    MovesOnInv(s, Step(s, Port(event), transient), transient);
  }

  lemma StepKeepsInv(s: State, e: Event, transient: string -> bool)
    requires Inv(s, transient) && Enabled(s, e)
    ensures Inv(Step(s, e, transient), transient)
  {
    match e
    case Listed(pending) => ListedKeepsInv(s, pending, transient);
    case ReviewResolved => ResolvedKeepsInv(s, transient);
    case DoctorRead(doctor, late) => DoctorKeepsInv(s, doctor, late, transient);
    case Port(event) => PortKeepsInv(s, event, transient);
    case _ => MovesOnInv(s, Step(s, e, transient), transient);
  }

  lemma StepRevision(s: State, e: Event, transient: string -> bool)
    requires Enabled(s, e)
    ensures Step(s, e, transient).port.revision == s.port.revision + (if e == Port(ApprovalPort.Changed) then 1 else 0)
  {
    if e.Listed? {
      NextReviewKeeps(s.(reviews := ManagedOf(e.pending)), 0);
    } else if e.ReviewResolved? {
      NextReviewKeeps(Admit(s, s.reviews[s.pc.next]), s.pc.next + 1);
    }
  }

  // ------------------------------------------------------------------ runs

  ghost predicate Run(states: seq<State>, events: seq<Event>, transient: string -> bool) {
    && |states| == |events| + 1
    && states[0] == Init()
    && forall i | 0 <= i < |events| ::
         Enabled(states[i], events[i]) && states[i + 1] == Step(states[i], events[i], transient)
  }

  lemma {:induction false} RunKeepsInv(states: seq<State>, events: seq<Event>, transient: string -> bool, i: nat)
    requires Run(states, events, transient) && i <= |events|
    ensures Inv(states[i], transient)
  {
    if i > 0 {
      RunKeepsInv(states, events, transient, i - 1);
      StepKeepsInv(states[i - 1], events[i - 1], transient);
    }
  }

  /** All managed reviews listed in the first `n` events, in order. */
  ghost function ListedBefore(events: seq<Event>, n: nat): seq<Approval>
    requires n <= |events|
  {
    if n == 0 then []
    else ListedBefore(events, n - 1) + if events[n - 1].Listed? then ManagedOf(events[n - 1].pending) else []
  }

  /** What is still to be considered of the latest listing. */
  function Todo(s: State): seq<Approval> {
    if s.pc.Resolving? && s.pc.next < |s.reviews| then s.reviews[s.pc.next..] else []
  }

  lemma {:induction false} NextReviewConsiders(s: State, i: nat)
    requires i <= |s.reviews|
    ensures var s' := NextReview(s, i); s'.considered + Todo(s') == s.considered + s.reviews[i..]
    decreases |s.reviews| - i
  {
    if i < |s.reviews| {
      assert s.reviews[i..] == [s.reviews[i]] + s.reviews[i + 1..];
      if Known(s.fingerprints, s.reviews[i]) {
        NextReviewConsiders(s.(considered := s.considered + [s.reviews[i]]), i + 1);
        assert s.considered + [s.reviews[i]] + s.reviews[i + 1..] == s.considered + s.reviews[i..];
      }
    }
  }

  lemma StepConsiders(s: State, e: Event, transient: string -> bool)
    requires Enabled(s, e)
    ensures var s' := Step(s, e, transient);
            if s'.pc == Finished(Threw) then s'.considered == s.considered
            else s'.considered + Todo(s') == s.considered + Todo(s) + if e.Listed? then ManagedOf(e.pending) else []
  {
    assert s.considered + Todo(s) + [] == s.considered + Todo(s);
    match e
    case Listed(pending) =>
      var t := s.(reviews := ManagedOf(pending));
      NextReviewConsiders(t, 0);
      NextReviewKeeps(t, 0);
      assert t.reviews[0..] == t.reviews && s.considered + [] == s.considered;
    case ReviewResolved =>
      var a := s.reviews[s.pc.next];
      NextReviewConsiders(Admit(s, a), s.pc.next + 1);
      NextReviewKeeps(Admit(s, a), s.pc.next + 1);
      assert s.considered + [a] + s.reviews[s.pc.next + 1..] == s.considered + s.reviews[s.pc.next..];
    case _ =>
  }

  /** The loop considers every managed review listed, in order, until it ends. */
  lemma {:induction false} ConsidersWhatIsListed(
      states: seq<State>, events: seq<Event>, transient: string -> bool, n: nat)
    requires Run(states, events, transient) && n <= |events|
    ensures states[n].pc != Finished(Threw) ==> states[n].considered + Todo(states[n]) == ListedBefore(events, n)
    ensures states[n].considered <= ListedBefore(events, n)
  {
    if n > 0 {
      ConsidersWhatIsListed(states, events, transient, n - 1);
      StepConsiders(states[n - 1], events[n - 1], transient);
      Prefixes(states[n].considered, Todo(states[n]), ListedBefore(events, n - 1), events, n);
    }
  }

  lemma Prefixes(considered: seq<Approval>, todo: seq<Approval>, before: seq<Approval>, events: seq<Event>, n: nat)
    requires 0 < n <= |events| && before == ListedBefore(events, n - 1)
    ensures considered <= considered + todo && before <= ListedBefore(events, n)
  {
  }

  /**
   Whatever the server reports, the reviews submitted are the managed ones,
   each exactly when it differs from the one listed last for its slot; the
   reported ids and part count are those of the submissions.
   */
  lemma ResolvesExactlyChanges(states: seq<State>, events: seq<Event>, transient: string -> bool, n: nat)
    requires Run(states, events, transient) && n <= |events|
    ensures forall a | a in states[n].resolutions ::
              && a.kind == "unit-install-review" && a.mode == "adopt-root"
              && (a.callerId == "system:units" || a.callerId == "system:workspace-creation")
    ensures states[n].pc == ReadingDoctor || states[n].pc.Parked?
              || (states[n].pc.Finished? && states[n].pc.outcome != Threw) ==>
              Chosen(ListedBefore(events, n), ChangedAt(ListedBefore(events, n)), states[n].resolutions)
    ensures states[n].approvedPartCount == PartCount(states[n].resolutions)
    ensures SlotsAre(states[n].approved, states[n].resolutions)
  {
    RunKeepsInv(states, events, transient, n);
    ConsidersWhatIsListed(states, events, transient, n);
    assert states[n].considered + [] == states[n].considered;
    ChangesExactly(states[n].considered);
    ChangesAreAmong(states[n].considered);
  }

  /** Review `j` is the latest before review `k` for the same slot. */
  ghost predicate LatestBefore(reviews: seq<Approval>, j: nat, k: nat) {
    && j < k < |reviews| && reviews[j].approvalId == reviews[k].approvalId
    && forall i | j < i < k :: reviews[i].approvalId != reviews[k].approvalId
  }

  /** Review `k` asks for something else than the latest before it for its slot, or there was none. */
  ghost predicate Changed(reviews: seq<Approval>, k: nat) {
    forall j: nat | LatestBefore(reviews, j, k) :: !SameRequest(reviews[j], reviews[k])
  }

  ghost function ChangedAt(reviews: seq<Approval>): set<nat> {
    set k: nat | k < |reviews| && Changed(reviews, k)
  }

  lemma {:induction false} LatestExactly(reviews: seq<Approval>, a: Approval)
    ensures Latest(reviews, a.approvalId) == Some(FingerprintOf(a)) <==> !Changed(reviews + [a], |reviews|)
  {
    var all, n := reviews + [a], |reviews|;
    if reviews != [] {
      var front, last := reviews[..n - 1], reviews[n - 1];
      assert all[n - 1] == last && all[n] == a;
      if last.approvalId == a.approvalId {
        FingerprintExactly(last, a);
        assert LatestBefore(all, n - 1, n);
        assert forall j: nat | LatestBefore(all, j, n) :: j == n - 1;
      } else {
        LatestExactly(front, a);
        forall j: nat ensures LatestBefore(all, j, n) <==> LatestBefore(front + [a], j, n - 1) {
          assert forall i | 0 <= i < n - 1 :: all[i] == (front + [a])[i];
          assert (front + [a])[n - 1] == a;
        }
        assert forall j: nat | j < n - 1 :: all[j] == (front + [a])[j];
      }
    }
  }

  lemma ChangedInPrefix(reviews: seq<Approval>, a: Approval, k: nat)
    requires k < |reviews|
    ensures Changed(reviews + [a], k) <==> Changed(reviews, k)
  {
    forall j: nat ensures LatestBefore(reviews + [a], j, k) <==> LatestBefore(reviews, j, k) {
      assert forall i | 0 <= i < |reviews| :: (reviews + [a])[i] == reviews[i];
    }
  }

  /** The changes are the reviews that ask for something new for their slot, in order. */
  lemma {:induction false} ChangesExactly(reviews: seq<Approval>)
    ensures Chosen(reviews, ChangedAt(reviews), Changes(reviews))
  {
    if reviews != [] {
      var front, last := reviews[..|reviews| - 1], reviews[|reviews| - 1];
      assert reviews == front + [last];
      ChangesExactly(front);
      LatestExactly(front, last);
      forall k: nat | k < |front| ensures k in ChangedAt(front) <==> k in ChangedAt(reviews) {
        ChangedInPrefix(front, last, k);
      }
      ChosenNext(front, ChangedAt(front), ChangedAt(reviews), Changes(front), last);
      assert Changes(front) + [] == Changes(front);
    }
  }

  lemma {:induction false} ChangesAreAmong(reviews: seq<Approval>)
    ensures forall a | a in Changes(reviews) :: a in reviews
  {
    if reviews != [] {
      ChangesAreAmong(reviews[..|reviews| - 1]);
    }
  }

  /** Event `h` takes the loop to its head. */
  ghost predicate AtHead(states: seq<State>, events: seq<Event>, h: nat)
    requires |states| == |events| + 1
  {
    h < |events| && (events[h].Subscribed? || events[h].Woken?)
  }

  ghost predicate OneIteration(states: seq<State>, events: seq<Event>, h: nat, k: nat)
    requires |states| == |events| + 1
  {
    h < k <= |events| && AtHead(states, events, h) && forall j | h < j < k :: !AtHead(states, events, j)
  }

  predicate PastReview(pc: Pc) {
    pc.Listing? || pc.Resolving? || pc.ReadingDoctor? || pc.Parked? || (pc.Finished? && pc.outcome != Threw)
  }

  predicate PastListing(pc: Pc) {
    PastReview(pc) && !pc.Listing?
  }

  lemma StepReads(s: State, e: Event, transient: string -> bool)
    requires Enabled(s, e) && !e.Subscribed? && !e.Woken? && !s.pc.NotStarted?
    ensures var s' := Step(s, e, transient);
            && s'.observedRevision == s.observedRevision && !s'.pc.NotStarted? && (s'.pc.Observing? ==> s.pc.Observing?)
            && (PastReview(s'.pc) ==> e == ReviewRead(s'.status) || (PastReview(s.pc) && s'.status == s.status))
            && (PastListing(s'.pc) ==>
                  (e.Listed? && ManagedOf(e.pending) == s'.reviews) || (PastListing(s.pc) && s'.reviews == s.reviews))
  {
    if e.Listed? {
      NextReviewKeeps(s.(reviews := ManagedOf(e.pending)), 0);
    } else if e.ReviewResolved? {
      NextReviewKeeps(Admit(s, s.reviews[s.pc.next]), s.pc.next + 1);
    }
  }

  ghost predicate ReadBetween(events: seq<Event>, h: nat, k: nat, status: Status) {
    exists r | h < r < k && r < |events| :: events[r] == ReviewRead(status)
  }

  ghost predicate ListedBetween(events: seq<Event>, h: nat, k: nat, reviews: seq<Approval>) {
    exists l | h < l < k && l < |events| :: events[l].Listed? && ManagedOf(events[l].pending) == reviews
  }

  /** The status and the reviews the loop goes by are those read in this very iteration. */
  lemma {:induction false} IterationReads(
      states: seq<State>, events: seq<Event>, transient: string -> bool, h: nat, k: nat)
    requires Run(states, events, transient) && OneIteration(states, events, h, k)
    ensures !states[k].pc.NotStarted? && !states[k].pc.Observing?
    ensures PastReview(states[k].pc) ==> ReadBetween(events, h, k, states[k].status)
    ensures PastListing(states[k].pc) ==> ListedBetween(events, h, k, states[k].reviews)
    ensures states[k].observedRevision == states[h].port.revision
    decreases k
  {
    if h + 1 < k {
      assert OneIteration(states, events, h, k - 1);
      IterationReads(states, events, transient, h, k - 1);
      assert !AtHead(states, events, k - 1);
      var s, t := states[k - 1], states[k];
      StepReads(s, events[k - 1], transient);
      if PastReview(t.pc) && events[k - 1] != ReviewRead(t.status) {
        ReadLater(events, h, k, t.status);
      }
      if PastListing(t.pc) && !(events[k - 1].Listed? && ManagedOf(events[k - 1].pending) == t.reviews) {
        ListedLater(events, h, k, t.reviews);
      }
    }
  }

  lemma ReadLater(events: seq<Event>, h: nat, k: nat, status: Status)
    requires k > 0 && ReadBetween(events, h, k - 1, status)
    ensures ReadBetween(events, h, k, status)
  {
  }

  lemma ListedLater(events: seq<Event>, h: nat, k: nat, reviews: seq<Approval>)
    requires k > 0 && ListedBetween(events, h, k - 1, reviews)
    ensures ListedBetween(events, h, k, reviews)
  {
  }

  /** A return saw, in its own iteration, a completed creation review and no managed review pending. */
  lemma ReturnIsJustified(
      states: seq<State>, events: seq<Event>, transient: string -> bool, h: nat, k: nat, doctor: Doctor)
    requires Run(states, events, transient) && OneIteration(states, events, h, k)
    requires states[k].pc == Finished(Returned(doctor))
    ensures doctor.ok || !OnlyBuildsMissing(doctor, transient)
    ensures exists r | h < r < k :: events[r] == ReviewRead(NotRequired) || events[r] == ReviewRead(Resolved)
    ensures exists l | h < l < k :: events[l].Listed? && forall a | a in events[l].pending :: !Managed(a)
  {
    WaitsExactly(doctor, transient);
    RunKeepsInv(states, events, transient, k);
    IterationReads(states, events, transient, h, k);
    var r :| h < r < k && events[r] == ReviewRead(states[k].status);
    assert events[r].ReviewRead?;
    var l :| h < l < k && events[l].Listed? && ManagedOf(events[l].pending) == states[k].reviews;
    assert events[l].Listed?;
  }

  /** The creation review was read as complete, and no managed review was listed. */
  ghost predicate SawNothingLeft(events: seq<Event>, r: nat, l: nat) {
    && r < |events| && (events[r] == ReviewRead(NotRequired) || events[r] == ReviewRead(Resolved))
    && l < |events| && events[l].Listed? && forall a | a in events[l].pending :: !Managed(a)
  }

  lemma DoctorEnds(s: State, doctor: Doctor, late: bool, transient: string -> bool)
    requires Enabled(s, DoctorRead(doctor, late))
    ensures var s' := Step(s, DoctorRead(doctor, late), transient);
            && (s'.pc == Finished(Returned(doctor)) <==>
                  Complete(s.status) && s.reviews == [] && (doctor.ok || !OnlyBuildsMissing(doctor, transient)))
            && (s'.pc == Finished(TimedOut) <==> s'.pc != Finished(Returned(doctor)) && late)
            && (s'.pc != Finished(Returned(doctor)) && !late ==> s'.pc.Parked?)
            && s'.observedRevision == s.observedRevision && s'.status == s.status
  {
    WaitsExactly(doctor, transient);
  }

  /**
   How an iteration ends once the doctor has answered: it returns exactly if
   its own reads left nothing to do and the doctor is ready or not merely
   waiting for builds; otherwise it times out or waits, from the revision it
   began with.
   */
  lemma IterationEndsExactly(
      states: seq<State>, events: seq<Event>, transient: string -> bool, h: nat, k: nat)
    returns (r: nat, l: nat)
    requires Run(states, events, transient) && OneIteration(states, events, h, k)
    requires k < |events| && events[k].DoctorRead?
    ensures h < r < k && h < l < k && events[r] == ReviewRead(states[k + 1].status) && events[l].Listed?
    ensures var doctor, next := events[k].doctor, states[k + 1].pc;
            && (next == Finished(Returned(doctor)) <==>
                  SawNothingLeft(events, r, l) && (doctor.ok || !OnlyBuildsMissing(doctor, transient)))
            && (next == Finished(TimedOut) <==> next != Finished(Returned(doctor)) && events[k].late)
            && (next != Finished(Returned(doctor)) && !events[k].late ==>
                  next.Parked? && next.wait < |states[k + 1].port.waits|
                  && states[k + 1].port.waits[next.wait].after == states[h].port.revision)
  {
    var s, e := states[k], events[k];
    assert Enabled(s, e) && states[k + 1] == Step(s, e, transient);
    DoctorEnds(s, e.doctor, e.late, transient);
    RunKeepsInv(states, events, transient, k + 1);
    IterationReads(states, events, transient, h, k);
    r :| h < r < k && events[r] == ReviewRead(s.status);
    l :| h < l < k && events[l].Listed? && ManagedOf(events[l].pending) == s.reviews;
  }

  /** First the subscription, then each iteration from the revision at its head; a failed call ends the loop. */
  lemma CallsFollow(states: seq<State>, events: seq<Event>, transient: string -> bool, k: nat)
    requires Run(states, events, transient) && k < |events|
    ensures events[k].Start? ==> states[k + 1].pc == Observing
    ensures events[k].Subscribed? || events[k].Woken? ==>
              states[k + 1].pc == ReadingReview && states[k + 1].observedRevision == states[k].port.revision
    ensures events[k].CallFailed? ==> states[k + 1].pc == Finished(Threw)
    ensures states[k].pc.Finished? ==> states[k + 1].pc == states[k].pc
  {
    assert Enabled(states[k], events[k]);
  }

  lemma {:induction false} NextReviewIsLater(s: State, i: nat)
    requires i <= |s.reviews|
    ensures var s' := NextReview(s, i);
            && s'.reviews == s.reviews && s'.resolutions == s.resolutions && s'.approved == s.approved
            && (s'.pc == ReadingDoctor || (s'.pc.Resolving? && i <= s'.pc.next < |s.reviews|))
    decreases |s.reviews| - i
  {
    if i < |s.reviews| && Known(s.fingerprints, s.reviews[i]) {
      NextReviewIsLater(s.(considered := s.considered + [s.reviews[i]]), i + 1);
    }
  }

  /** A resolution that succeeded is on record, and the loop goes on to a later review or to the doctor. */
  lemma ResolutionAdvances(states: seq<State>, events: seq<Event>, transient: string -> bool, k: nat)
    requires Run(states, events, transient) && k < |events| && events[k].ReviewResolved?
    ensures var s, s' := states[k], states[k + 1];
            && s.pc.Resolving? && s.pc.next < |s.reviews| && s'.reviews == s.reviews
            && s'.resolutions == s.resolutions + [s.reviews[s.pc.next]]
            && s'.approved == s.approved + {s.reviews[s.pc.next].approvalId}
            && (s'.pc == ReadingDoctor || (s'.pc.Resolving? && s.pc.next < s'.pc.next < |s.reviews|))
  {
    var s := states[k];
    assert Enabled(s, events[k]);
    NextReviewIsLater(Admit(s, s.reviews[s.pc.next]), s.pc.next + 1);
  }

  /** Whatever the loop awaits may answer in any way, or fail. */
  lemma AnswersMayCome(s: State, status: Status, pending: seq<Approval>, doctor: Doctor, late: bool)
    ensures s.pc.NotStarted? ==> Enabled(s, Start)
    ensures s.pc.Observing? ==> Enabled(s, Subscribed) && Enabled(s, CallFailed)
    ensures s.pc.ReadingReview? ==> Enabled(s, ReviewRead(status)) && Enabled(s, CallFailed)
    ensures s.pc.Listing? ==> Enabled(s, Listed(pending)) && Enabled(s, CallFailed)
    ensures s.pc.Resolving? && s.pc.next < |s.reviews| ==> Enabled(s, ReviewResolved) && Enabled(s, CallFailed)
    ensures s.pc.ReadingDoctor? ==> Enabled(s, DoctorRead(doctor, late)) && Enabled(s, CallFailed)
    ensures Enabled(s, Port(ApprovalPort.Changed)) && Enabled(s, Port(ApprovalPort.Close))
  {
  }

  /** A failed or dismissed creation review ends the loop, and no other does. */
  lemma ReviewEndsExactly(states: seq<State>, events: seq<Event>, transient: string -> bool, k: nat)
    requires Run(states, events, transient) && k < |events| && events[k].ReviewRead?
    ensures states[k + 1].pc.Finished? <==> events[k].status == FailedReview || events[k].status == Unresolved
    ensures states[k + 1].pc.Finished? ==> states[k + 1].pc.outcome == Threw
    ensures !states[k + 1].pc.Finished? ==> states[k + 1].pc == Listing
  {
  }

  lemma RunRevision(states: seq<State>, events: seq<Event>, transient: string -> bool, i: nat)
    requires Run(states, events, transient) && i < |events|
    ensures states[i + 1].port.revision
            == states[i].port.revision + (if events[i] == Port(ApprovalPort.Changed) then 1 else 0)
  {
    StepRevision(states[i], events[i], transient);
  }

  ghost predicate GrowsAt(states: seq<State>, k: nat) {
    k + 1 < |states| && states[k].port.revision <= states[k + 1].port.revision
  }

  lemma {:induction false} GrowsAlong(states: seq<State>, i: nat, j: nat)
    requires i <= j < |states| && forall k: nat | i <= k < j :: GrowsAt(states, k)
    ensures states[i].port.revision <= states[j].port.revision
    decreases j
  {
    if i < j {
      GrowsAlong(states, i, j - 1);
      assert GrowsAt(states, j - 1);
    }
  }

  lemma RevisionOnlyGrows(states: seq<State>, events: seq<Event>, transient: string -> bool, i: nat, j: nat)
    requires Run(states, events, transient) && i <= j <= |events|
    ensures states[i].port.revision <= states[j].port.revision
  {
    forall k: nat | i <= k < j ensures GrowsAt(states, k) {
      RunRevision(states, events, transient, k);
    }
    GrowsAlong(states, i, j);
  }

  /** The loop never waits past a change announced since its iteration began. */
  lemma NeverWaitsPastChange(
      states: seq<State>, events: seq<Event>, transient: string -> bool, h: nat, j: nat, k: nat)
    requires Run(states, events, transient) && OneIteration(states, events, h, k)
    requires h <= j < k && events[j] == Port(ApprovalPort.Changed)
    requires states[k].pc.Parked?
    ensures Enabled(states[k], Woken)
  {
    RunKeepsInv(states, events, transient, k);
    IterationReads(states, events, transient, h, k);
    RevisionOnlyGrows(states, events, transient, h, j);
    RevisionOnlyGrows(states, events, transient, j + 1, k);
    RunRevision(states, events, transient, j);
  }

  // ----------------------------------------------------------------- class

  class Settlement {
    const port: ApprovalPort.Port
    const transient: string -> bool
    var pc: Pc
    var observedRevision: nat
    var status: Status
    var reviews: seq<Approval>
    var fingerprints: map<string, Fingerprint>
    var approved: set<string>
    var approvedPartCount: nat
    ghost var considered: seq<Approval>
    ghost var resolutions: seq<Approval>

    ghost function View(): State
      reads this, port
    {
      State(port.View(), pc, observedRevision, status, reviews, fingerprints, approved, approvedPartCount, considered,
          resolutions)
    }

    ghost predicate Valid()
      reads this, port
    {
      Inv(View(), transient)
    }

    constructor (port: ApprovalPort.Port, transient: string -> bool)
      requires port.View() == ApprovalPort.Init()
      ensures Valid() && View() == Init() && this.port == port && this.transient == transient
    {
      this.port, this.transient := port, transient;
      pc, observedRevision, status, reviews, fingerprints, approved, approvedPartCount :=
        NotStarted, 0, Pending, [], map[], {}, 0;
      considered, resolutions := [], [];
      new;
      assert Changes([]) == [];
    }

    method ReadReviewState()
      modifies this`pc, this`observedRevision
      ensures View() == Head(old(View()))
    {
      observedRevision := port.revision;
      pc := ReadingReview;
    }

    method StartObserving()
      requires Valid() && Enabled(View(), Start)
      modifies this
      ensures Valid() && View() == Step(old(View()), Start, transient)
    {
      StepKeepsInv(View(), Start, transient);
      pc := Observing;
    }

    method AfterSubscribe()
      requires Valid() && Enabled(View(), Subscribed)
      modifies this
      ensures Valid() && View() == Step(old(View()), Subscribed, transient)
    {
      StepKeepsInv(View(), Subscribed, transient);
      ReadReviewState();
    }

    method AfterReviewState(read: Status)
      requires Valid() && Enabled(View(), ReviewRead(read))
      modifies this
      ensures Valid() && View() == Step(old(View()), ReviewRead(read), transient)
    {
      StepKeepsInv(View(), ReviewRead(read), transient);
      status := read;
      pc := if read == FailedReview || read == Unresolved then Finished(Threw) else Listing;
    }

    /** The loop over the reviews, from the `i`-th up to the next call it awaits. */
    method Resume(i: nat)
      requires i <= |reviews|
      modifies this`pc, this`considered
      ensures View() == NextReview(old(View()), i)
    {
      var k := i;
      while k < |reviews|
        invariant i <= k <= |reviews| && pc == old(pc)
        invariant NextReview(old(View()), i) == NextReview(View(), k)
      {
        if !Known(fingerprints, reviews[k]) {
          pc := Resolving(k);
          return;
        }
        considered := considered + [reviews[k]];
        k := k + 1;
      }
      pc := ReadingDoctor;
    }

    method AfterListing(pending: seq<Approval>)
      requires Valid() && Enabled(View(), Listed(pending))
      modifies this
      ensures Valid() && View() == Step(old(View()), Listed(pending), transient)
    {
      StepKeepsInv(View(), Listed(pending), transient);
      reviews := ManagedOf(pending);
      Resume(0);
    }

    method AfterResolution()
      requires Valid() && Enabled(View(), ReviewResolved)
      modifies this
      ensures Valid() && View() == Step(old(View()), ReviewResolved, transient)
    {
      StepKeepsInv(View(), ReviewResolved, transient);
      ghost var next := Step(View(), ReviewResolved, transient);
      var i := pc.next;
      Record(reviews[i]);
      Resume(i + 1);
      assert View() == next;
    }

    method Record(review: Approval)
      modifies this`fingerprints, this`approved, this`approvedPartCount, this`considered, this`resolutions
      ensures View() == Admit(old(View()), review)
    {
      fingerprints := fingerprints[review.approvalId := FingerprintOf(review)];
      approved := approved + {review.approvalId};
      approvedPartCount := approvedPartCount + |review.parts|;
      considered := considered + [review];
      resolutions := resolutions + [review];
    }

    method AfterDoctor(doctor: Doctor, late: bool)
      requires Valid() && Enabled(View(), DoctorRead(doctor, late))
      modifies this, port
      ensures Valid() && View() == Step(old(View()), DoctorRead(doctor, late), transient)
    {
      StepKeepsInv(View(), DoctorRead(doctor, late), transient);
      if !doctor.ok && !WaitsForBuilds(doctor, transient) && Complete(status) && reviews == [] {
        pc := Finished(Returned(doctor));
        return;
      }
      if doctor.ok && Complete(status) && reviews == [] {
        pc := Finished(Returned(doctor));
        return;
      }
      if late {
        pc := Finished(TimedOut);
        return;
      }
      var wait := port.WaitForChange(observedRevision);
      pc := Parked(wait);
    }

    method AfterWait()
      requires Valid() && Enabled(View(), Woken)
      modifies this
      ensures Valid() && View() == Step(old(View()), Woken, transient)
    {
      StepKeepsInv(View(), Woken, transient);
      ReadReviewState();
    }
  }
}
