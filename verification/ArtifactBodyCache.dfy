/**
 Model of the byte-budgeted body cache with single-flight loading.

 JavaScript's `Map` keeps its keys in insertion order, so `entries` is the list
 of its entries, oldest first.  Code between two turns of the event loop is one
 atomic event; the environment picks the next event, so a sequence of events is
 one interleaving of gets, load completions, load failures and clean-ups.
 */
module ArtifactBodyCache {
  import opened Results

  type Body = seq<bv8>

  datatype Entry<K> = Entry(key: K, body: Body)

  datatype Phase = Loading | Loaded(body: Body) | Failed

  /** One started load: the promise that `pending` shares between callers. */
  datatype Flight<K> = Flight(key: K, phase: Phase, cleaned: bool)

  datatype State<K> = State(
    entries: seq<Entry<K>>,
    pending: map<K, nat>,
    bytes: int,
    flights: seq<Flight<K>>)

  datatype Event<K> =
    | Get(key: K)
    | Resolve(flight: nat, body: Body)
    | Reject(flight: nat)
    | CleanUp(flight: nat)

  /** What a caller of `get` receives: a settled body or a shared flight. */
  datatype Answer = Hit(body: Body) | Shared(flight: nat)

  // ---------------------------------------------------------------- Map

  /** Position of a key, or the length when the key is absent. */
  function IndexOf<K(==)>(entries: seq<Entry<K>>, key: K): (i: nat)
    ensures i <= |entries|
    ensures i < |entries| ==> entries[i].key == key
    ensures forall j | 0 <= j < i :: entries[j].key != key
  {
    if entries == [] then 0
    else if entries[0].key == key then 0
    else
      var rest := entries[1..];
      var i := IndexOf(rest, key);
      assert forall j | 1 <= j < i + 1 :: entries[j] == rest[j - 1];
      i + 1
  }

  function Has<K(==)>(entries: seq<Entry<K>>, key: K): (has: bool)
    ensures has <==> exists e | e in entries :: e.key == key
  {
    var i := IndexOf(entries, key);
    assert i < |entries| ==> entries[i] in entries;
    i < |entries|
  }

  /** `Map.delete` */
  function Delete<K(==)>(entries: seq<Entry<K>>, key: K): seq<Entry<K>> {
    var i := IndexOf(entries, key);
    if i < |entries| then entries[..i] + entries[i + 1..] else entries
  }

  /** `Map.set`: an existing key keeps its place, a new one goes last. */
  function Put<K(==)>(entries: seq<Entry<K>>, key: K, body: Body): seq<Entry<K>> {
    var i := IndexOf(entries, key);
    if i < |entries| then entries[i := Entry(key, body)] else entries + [Entry(key, body)]
  }

  function Size<K>(entries: seq<Entry<K>>): nat {
    if entries == [] then 0 else |entries[0].body| + Size(entries[1..])
  }

  ghost predicate Distinct<K>(entries: seq<Entry<K>>) {
    forall i, j | 0 <= i < j < |entries| :: entries[i].key != entries[j].key
  }

  // -------------------------------------------------------------- events

  function Init<K>(): State<K> {
    State([], map[], 0, [])
  }

  predicate Enabled<K>(s: State<K>, e: Event<K>) {
    match e
    case Get(_) => true
    case Resolve(f, _) => f < |s.flights| && s.flights[f].phase.Loading?
    case Reject(f) => f < |s.flights| && s.flights[f].phase.Loading?
    case CleanUp(f) => f < |s.flights| && !s.flights[f].phase.Loading? && !s.flights[f].cleaned
  }

  /**
   The eviction loop.  The last component is false when the loop ran out of
   entries, where the source dereferences a missing entry.
   */
  function MakeRoom<K(==)>(entries: seq<Entry<K>>, bytes: int, need: nat, max: int): (seq<Entry<K>>, int, bool) {
    if bytes + need <= max then (entries, bytes, true)
    else if entries == [] then (entries, bytes, false)
    else MakeRoom(entries[1..], bytes - |entries[0].body|, need, max)
  }

  function AnswerOf<K(==)>(s: State<K>, key: K): Answer {
    var i := IndexOf(s.entries, key);
    if i < |s.entries| then Hit(s.entries[i].body)
    else if key in s.pending then Shared(s.pending[key])
    else Shared(|s.flights|)
  }

  function Step<K(==)>(s: State<K>, e: Event<K>, max: int): State<K>
    requires Enabled(s, e)
  {
    match e
    case Get(key) =>
      var i := IndexOf(s.entries, key);
      if i < |s.entries| then
        s.(entries := Put(Delete(s.entries, key), key, s.entries[i].body))
      else if key in s.pending then s
      else
        s.(pending := s.pending[key := |s.flights|],
           flights := s.flights + [Flight(key, Loading, false)])
    case Resolve(f, body) =>
      if |body| <= max then
        var (entries, bytes, ok) := MakeRoom(s.entries, s.bytes, |body|, max);
        if ok then
          s.(entries := Put(entries, s.flights[f].key, body),
             bytes := bytes + |body|,
             flights := s.flights[f := s.flights[f].(phase := Loaded(body))])
        else
          s.(entries := entries, bytes := bytes,
             flights := s.flights[f := s.flights[f].(phase := Failed)])
      else
        s.(flights := s.flights[f := s.flights[f].(phase := Loaded(body))])
    case Reject(f) =>
      s.(flights := s.flights[f := s.flights[f].(phase := Failed)])
    case CleanUp(f) =>
      s.(pending := s.pending - {s.flights[f].key},
         flights := s.flights[f := s.flights[f].(cleaned := true)])
  }

  // ----------------------------------------------------------- invariant

  ghost predicate Accounted<K>(s: State<K>, max: int) {
    && s.bytes == Size(s.entries)
    && s.bytes <= (if max < 0 then 0 else max)
    && Distinct(s.entries)
  }

  /** `pending` maps exactly the keys of the flights not yet cleaned up. */
  ghost predicate PendingExact<K>(s: State<K>) {
    && (forall k | k in s.pending ::
          s.pending[k] < |s.flights| && s.flights[s.pending[k]].key == k && !s.flights[s.pending[k]].cleaned)
    && (forall f | 0 <= f < |s.flights| && !s.flights[f].cleaned ::
          s.flights[f].key in s.pending && s.pending[s.flights[f].key] == f)
  }

  /** The cross-map fact: a key whose load is unfinished has no entry. */
  ghost predicate LoadingUncached<K>(s: State<K>) {
    forall f | 0 <= f < |s.flights| && s.flights[f].phase.Loading? ::
      !s.flights[f].cleaned && !Has(s.entries, s.flights[f].key)
  }

  /** Some load of `key` produced `body`. */
  ghost predicate Produced<K>(s: State<K>, key: K, body: Body) {
    exists f | 0 <= f < |s.flights| :: s.flights[f].key == key && s.flights[f].phase == Loaded(body)
  }

  ghost predicate Provenance<K>(s: State<K>) {
    forall e | e in s.entries :: Produced(s, e.key, e.body)
  }

  ghost predicate Inv<K>(s: State<K>, max: int) {
    Accounted(s, max) && PendingExact(s) && LoadingUncached(s) && Provenance(s)
  }

  lemma {:induction false} SizeAppend<K>(a: seq<Entry<K>>, b: seq<Entry<K>>)
    ensures Size(a + b) == Size(a) + Size(b)
  {
    if a == [] {
      assert a + b == b;
    } else {
      assert (a + b)[1..] == a[1..] + b;
      SizeAppend(a[1..], b);
    }
  }

  lemma DeleteIsRemoval<K>(entries: seq<Entry<K>>, key: K)
    requires Distinct(entries) && Has(entries, key)
    ensures var i := IndexOf(entries, key);
            Put(Delete(entries, key), key, entries[i].body) == entries[..i] + entries[i + 1..] + [entries[i]]
    ensures var i := IndexOf(entries, key);
            Size(entries[..i] + entries[i + 1..] + [entries[i]]) == Size(entries)
  {
    var i := IndexOf(entries, key);
    assert !Has(Delete(entries, key), key);
    assert entries == entries[..i] + ([entries[i]] + entries[i + 1..]);
    SizeAppend(entries[..i], [entries[i]] + entries[i + 1..]);
    SizeAppend([entries[i]], entries[i + 1..]);
    SizeAppend(entries[..i] + entries[i + 1..], [entries[i]]);
    SizeAppend(entries[..i], entries[i + 1..]);
  }

  // ------------------------------------------- the simple recency list

  /** Drops the shortest oldest-first prefix that leaves at most `room` bytes. */
  function Trim<K>(entries: seq<Entry<K>>, room: nat): seq<Entry<K>> {
    if Size(entries) <= room then entries else Trim(entries[1..], room)
  }

  lemma {:induction false} TrimIsShortest<K>(entries: seq<Entry<K>>, room: nat) returns (n: nat)
    ensures n <= |entries| && Trim(entries, room) == entries[n..]
    ensures Size(entries[n..]) <= room
    ensures forall m | 0 <= m < n :: Size(entries[m..]) > room
  {
    if Size(entries) <= room {
      n := 0;
      assert entries[0..] == entries;
    } else {
      var n' := TrimIsShortest(entries[1..], room);
      n := n' + 1;
      assert entries[n..] == entries[1..][n'..];
      forall m | 0 <= m < n ensures Size(entries[m..]) > room {
        if m == 0 {
          assert entries[0..] == entries;
        } else {
          assert entries[m..] == entries[1..][m - 1..];
        }
      }
    }
  }

  /** The eviction loop computes `Trim`, never running out of entries. */
  lemma {:induction false} MakeRoomTrims<K>(entries: seq<Entry<K>>, bytes: int, need: nat, max: int)
    requires bytes == Size(entries) && need <= max
    ensures MakeRoom(entries, bytes, need, max) ==
            (Trim(entries, max - need), Size(Trim(entries, max - need)), true)
  {
    if bytes + need > max {
      MakeRoomTrims(entries[1..], bytes - |entries[0].body|, need, max);
    }
  }

  /** The recency list: most recently used last, nothing but bodies. */
  function Recent<K(==)>(list: seq<Entry<K>>, key: K, loaded: Option<Body>, max: int): seq<Entry<K>> {
    match loaded
    case Some(body) =>
      if |body| <= max then Trim(list, max - |body|) + [Entry(key, body)] else list
    case None =>
      var i := IndexOf(list, key);
      if i < |list| then list[..i] + list[i + 1..] + [list[i]] else list
  }

  function RecentStep<K(==)>(s: State<K>, e: Event<K>, max: int): seq<Entry<K>>
    requires Enabled(s, e)
  {
    match e
    case Get(key) => Recent(s.entries, key, None, max)
    case Resolve(f, body) => Recent(s.entries, s.flights[f].key, Some(body), max)
    case Reject(_) => s.entries
    case CleanUp(_) => s.entries
  }

  lemma TrimSubset<K>(entries: seq<Entry<K>>, room: nat)
    ensures forall e | e in Trim(entries, room) :: e in entries
    ensures Distinct(entries) ==> Distinct(Trim(entries, room))
  {
    var n := TrimIsShortest(entries, room);
  }

  /** Every event changes the entries exactly as the recency list says. */
  lemma RefinesRecencyList<K>(s: State<K>, e: Event<K>, max: int)
    requires Inv(s, max) && Enabled(s, e)
    ensures Step(s, e, max).entries == RecentStep(s, e, max)
  {
    match e
    case Get(key) =>
      if Has(s.entries, key) {
        DeleteIsRemoval(s.entries, key);
      }
    case Resolve(f, body) =>
      if |body| <= max {
        MakeRoomTrims(s.entries, s.bytes, |body|, max);
        TrimSubset(s.entries, max - |body|);
        assert !Has(Trim(s.entries, max - |body|), s.flights[f].key);
      }
    case Reject(_) =>
    case CleanUp(_) =>
  }

  lemma MovedStaysDistinct<K>(entries: seq<Entry<K>>, i: nat)
    requires Distinct(entries) && i < |entries|
    ensures Distinct(entries[..i] + entries[i + 1..] + [entries[i]])
  {
  }

  lemma TouchKeepsAccounting<K>(s: State<K>, key: K, max: int)
    requires Inv(s, max)
    ensures Accounted(Step(s, Get(key), max), max)
  {
    if Has(s.entries, key) {
      DeleteIsRemoval(s.entries, key);
      MovedStaysDistinct(s.entries, IndexOf(s.entries, key));
    }
  }

  /** A body inserted after trimming: distinct keys still, and its bytes on top of what is left. */
  lemma InsertedIsAccounted<K>(entries: seq<Entry<K>>, room: nat, key: K, body: Body)
    requires Distinct(entries) && !Has(entries, key)
    ensures var kept := Trim(entries, room);
            && !Has(kept, key) && Size(kept) <= room
            && Distinct(kept + [Entry(key, body)]) && Size(kept + [Entry(key, body)]) == Size(kept) + |body|
  {
    var kept := Trim(entries, room);
    TrimSubset(entries, room);
    var n := TrimIsShortest(entries, room);
    assert forall e | e in kept :: e.key != key;
    SizeAppend(kept, [Entry(key, body)]);
    assert Size([Entry(key, body)]) == |body|;
  }

  lemma InsertKeepsAccounting<K>(s: State<K>, f: nat, body: Body, max: int)
    requires Inv(s, max) && Enabled(s, Resolve(f, body)) && |body| <= max
    ensures Accounted(Step(s, Resolve(f, body), max), max)
  {
    MakeRoomTrims(s.entries, s.bytes, |body|, max);
    InsertedIsAccounted(s.entries, max - |body|, s.flights[f].key, body);
  }

  lemma StepKeepsAccounting<K>(s: State<K>, e: Event<K>, max: int)
    requires Inv(s, max) && Enabled(s, e)
    ensures Accounted(Step(s, e, max), max)
  {
    match e
    case Get(key) => TouchKeepsAccounting(s, key, max);
    case Resolve(f, body) =>
      if |body| <= max {
        InsertKeepsAccounting(s, f, body, max);
      }
    case Reject(_) =>
    case CleanUp(_) =>
  }

  lemma StepKeepsPending<K>(s: State<K>, e: Event<K>, max: int)
    requires Inv(s, max) && Enabled(s, e)
    ensures PendingExact(Step(s, e, max))
  {
    StepKeepsEntries(s, e, max);
  }

  lemma StepKeepsLoadingUncached<K>(s: State<K>, e: Event<K>, max: int)
    requires Inv(s, max) && Enabled(s, e)
    ensures LoadingUncached(Step(s, e, max))
  {
    var s' := Step(s, e, max);
    StepKeepsEntries(s, e, max);
    forall f | 0 <= f < |s'.flights| && s'.flights[f].phase.Loading?
      ensures !s'.flights[f].cleaned && !Has(s'.entries, s'.flights[f].key)
    {
      if f < |s.flights| {
        assert s.flights[f].phase.Loading? && !Has(s.entries, s.flights[f].key);
        assert e.Resolve? ==> s.flights[e.flight].key != s.flights[f].key;
      }
    }
  }

  lemma StepKeepsProvenance<K>(s: State<K>, e: Event<K>, max: int)
    requires Inv(s, max) && Enabled(s, e)
    ensures Provenance(Step(s, e, max))
  {
    var s' := Step(s, e, max);
    StepKeepsEntries(s, e, max);
    forall x | x in s'.entries ensures Produced(s', x.key, x.body) {
      if x in s.entries {
        assert Produced(s, x.key, x.body);
        var g :| 0 <= g < |s.flights| && s.flights[g].key == x.key && s.flights[g].phase == Loaded(x.body);
        assert s'.flights[g].phase == Loaded(x.body);
      } else {
        assert s'.flights[e.flight].phase == Loaded(x.body);
      }
    }
  }

  lemma StepKeepsInv<K>(s: State<K>, e: Event<K>, max: int)
    requires Inv(s, max) && Enabled(s, e)
    ensures Inv(Step(s, e, max), max)
  {
    StepKeepsAccounting(s, e, max);
    StepKeepsPending(s, e, max);
    StepKeepsLoadingUncached(s, e, max);
    StepKeepsProvenance(s, e, max);
  }

  lemma RecentMakesNothingUp<K>(list: seq<Entry<K>>, key: K, loaded: Option<Body>, max: int)
    ensures forall x | x in Recent(list, key, loaded, max) ::
              x in list || (loaded.Some? && |loaded.value| <= max && x == Entry(key, loaded.value))
  {
    if loaded.Some? && |loaded.value| <= max {
      TrimSubset(list, max - |loaded.value|);
    }
  }

  lemma StepKeepsFlights<K>(s: State<K>, e: Event<K>, max: int)
    requires Inv(s, max) && Enabled(s, e)
    ensures Step(s, e, max).flights == FlightsAfter(s, e)
    ensures Step(s, e, max).pending == PendingAfter(s, e)
  {
    if e.Resolve? && |e.body| <= max {
      MakeRoomTrims(s.entries, s.bytes, |e.body|, max);
    }
  }

  /** No event makes up an entry: a new one is the body just loaded. */
  lemma StepKeepsEntries<K>(s: State<K>, e: Event<K>, max: int)
    requires Inv(s, max) && Enabled(s, e)
    ensures forall x | x in Step(s, e, max).entries ::
              || x in s.entries
              || (e.Resolve? && |e.body| <= max && x == Entry(s.flights[e.flight].key, e.body)
                  && Step(s, e, max).flights[e.flight].phase == Loaded(e.body))
    ensures Step(s, e, max).flights == FlightsAfter(s, e)
    ensures Step(s, e, max).pending == PendingAfter(s, e)
  {
    RefinesRecencyList(s, e, max);
    StepKeepsFlights(s, e, max);
    match e
    case Get(key) => RecentMakesNothingUp(s.entries, key, None, max);
    case Resolve(f, body) => RecentMakesNothingUp(s.entries, s.flights[f].key, Some(body), max);
    case _ =>
  }

  function PendingAfter<K(==)>(s: State<K>, e: Event<K>): map<K, nat>
    requires Enabled(s, e)
  {
    match e
    case Get(key) =>
      if Has(s.entries, key) || key in s.pending then s.pending
      else s.pending[key := |s.flights|]
    case Resolve(_, _) => s.pending
    case Reject(_) => s.pending
    case CleanUp(f) => s.pending - {s.flights[f].key}
  }

  /** The promises' own life cycle, independent of what the cache keeps. */
  function FlightsAfter<K(==)>(s: State<K>, e: Event<K>): seq<Flight<K>>
    requires Enabled(s, e)
  {
    match e
    case Get(key) =>
      if Has(s.entries, key) || key in s.pending then s.flights
      else s.flights + [Flight(key, Loading, false)]
    case Resolve(f, body) => s.flights[f := s.flights[f].(phase := Loaded(body))]
    case Reject(f) => s.flights[f := s.flights[f].(phase := Failed)]
    case CleanUp(f) => s.flights[f := s.flights[f].(cleaned := true)]
  }

  // ---------------------------------------------------------------- runs

  /** One interleaving: any events the environment chose, from an empty cache. */
  ghost predicate Run<K(!new)>(states: seq<State<K>>, events: seq<Event<K>>, max: int) {
    && |states| == |events| + 1
    && states[0] == Init()
    && forall i | 0 <= i < |events| ::
         Enabled(states[i], events[i]) && states[i + 1] == Step(states[i], events[i], max)
  }

  lemma {:induction false} RunKeepsInv<K(!new)>(states: seq<State<K>>, events: seq<Event<K>>, max: int, i: nat)
    requires Run(states, events, max) && i <= |events|
    ensures Inv(states[i], max)
  {
    if i > 0 {
      RunKeepsInv(states, events, max, i - 1);
      StepKeepsInv(states[i - 1], events[i - 1], max);
    }
  }

  lemma LoadedByStep<K>(s: State<K>, e: Event<K>, max: int, f: nat)
    requires Inv(s, max) && Enabled(s, e)
    requires f < |Step(s, e, max).flights| && Step(s, e, max).flights[f].phase.Loaded?
    ensures f < |s.flights| && Step(s, e, max).flights[f].key == s.flights[f].key
    ensures e == Resolve(f, Step(s, e, max).flights[f].phase.body)
            || s.flights[f].phase == Step(s, e, max).flights[f].phase
  {
    StepKeepsEntries(s, e, max);
  }

  lemma LoadedLately<K(!new)>(states: seq<State<K>>, events: seq<Event<K>>, max: int, i: nat, f: nat)
    requires Run(states, events, max) && i <= |events|
    requires f < |states[i].flights| && states[i].flights[f].phase.Loaded?
    ensures i > 0 && f < |states[i - 1].flights| && states[i - 1].flights[f].key == states[i].flights[f].key
    ensures events[i - 1] == Resolve(f, states[i].flights[f].phase.body)
              || states[i - 1].flights[f].phase == states[i].flights[f].phase
  {
    assert states[0] == Init();
    RunKeepsInv(states, events, max, i - 1);
    LoadedByStep(states[i - 1], events[i - 1], max, f);
  }

  /** A settled flight's body came from the completion event of that very load. */
  lemma {:induction false} LoadedByEvent<K(!new)>(
      states: seq<State<K>>, events: seq<Event<K>>, max: int, i: nat, f: nat)
    returns (j: nat)
    requires Run(states, events, max) && i <= |events|
    requires f < |states[i].flights| && states[i].flights[f].phase.Loaded?
    ensures j < i && events[j] == Resolve(f, states[i].flights[f].phase.body)
    ensures f < |states[j].flights| && states[j].flights[f].key == states[i].flights[f].key
  {
    LoadedLately(states, events, max, i, f);
    if events[i - 1] == Resolve(f, states[i].flights[f].phase.body) {
      j := i - 1;
    } else {
      j := LoadedByEvent(states, events, max, i - 1, f);
    }
  }

  /** Gets may come at any time, and a load may settle either way before its clean-up. */
  lemma AnswersMayCome<K>(s: State<K>, key: K, f: nat, body: Body)
    requires f < |s.flights|
    ensures Enabled(s, Get(key))
    ensures s.flights[f].phase.Loading? ==> Enabled(s, Resolve(f, body)) && Enabled(s, Reject(f))
    ensures !s.flights[f].phase.Loading? && !s.flights[f].cleaned ==> Enabled(s, CleanUp(f))
  {
  }

  /** The byte account and the eviction loop, in every reachable state. */
  lemma BudgetHolds<K(!new)>(states: seq<State<K>>, events: seq<Event<K>>, max: int, i: nat)
    requires Run(states, events, max) && i <= |events|
    ensures states[i].bytes == Size(states[i].entries)
    ensures states[i].bytes <= (if max < 0 then 0 else max)
    ensures forall body: Body | |body| <= max ::
              MakeRoom(states[i].entries, states[i].bytes, |body|, max).2
  {
    RunKeepsInv(states, events, max, i);
    forall body: Body | |body| <= max
      ensures MakeRoom(states[i].entries, states[i].bytes, |body|, max).2
    {
      MakeRoomTrims(states[i].entries, states[i].bytes, |body|, max);
    }
  }

  /** At most one load per key is unfinished, and its key is not cached. */
  lemma SingleFlight<K(!new)>(states: seq<State<K>>, events: seq<Event<K>>, max: int, i: nat, f: nat, g: nat)
    requires Run(states, events, max) && i <= |events|
    requires f < |states[i].flights| && states[i].flights[f].phase.Loading?
    requires g < |states[i].flights| && states[i].flights[g].phase.Loading?
    requires states[i].flights[f].key == states[i].flights[g].key
    ensures f == g
    ensures AnswerOf(states[i], states[i].flights[f].key) == Shared(f)
  {
    RunKeepsInv(states, events, max, i);
  }

  /** Whatever `get` answers with was, or will be, produced by a load of that key. */
  lemma GetAnswersFromItsOwnKey<K(!new)>(
      states: seq<State<K>>, events: seq<Event<K>>, max: int, i: nat, key: K)
    requires Run(states, events, max) && i < |events| && events[i] == Get(key)
    ensures match AnswerOf(states[i], key)
            case Hit(body) =>
              exists j, f: nat :: 0 <= j < i && events[j] == Resolve(f, body) && f < |states[j].flights|
                             && states[j].flights[f].key == key
            case Shared(f) =>
              f < |states[i + 1].flights| && states[i + 1].flights[f].key == key
  {
    RunKeepsInv(states, events, max, i);
    match AnswerOf(states[i], key)
    case Hit(body) =>
      var e := states[i].entries[IndexOf(states[i].entries, key)];
      assert e in states[i].entries;
      var f :| 0 <= f < |states[i].flights| && states[i].flights[f].key == key
               && states[i].flights[f].phase == Loaded(body);
      var j := LoadedByEvent(states, events, max, i, f);
    case Shared(f) =>
  }

  // --------------------------------------------------------------- class

  class Cache<K(==)> {
    const maxBytes: int
    var entries: seq<Entry<K>>
    var pending: map<K, nat>
    var bytes: int
    /** The promises handed out, in the order their loads began. */
    var flights: seq<Flight<K>>

    function View(): State<K>
      reads this
    {
      State(entries, pending, bytes, flights)
    }

    ghost predicate Valid()
      reads this
    {
      Inv(View(), maxBytes)
    }

    constructor (maxBytes: int)
      ensures Valid() && View() == Init() && this.maxBytes == maxBytes
    {
      this.maxBytes := maxBytes;
      entries, pending, bytes, flights := [], map[], 0, [];
    }

    method GetBody(key: K) returns (answer: Answer)
      requires Valid()
      modifies this
      ensures Valid() && View() == Step(old(View()), Get(key), maxBytes)
      ensures answer == AnswerOf(old(View()), key)
    {
      ghost var before := View();
      StepKeepsInv(before, Get(key), maxBytes);
      var i := IndexOf(entries, key);
      if i < |entries| {
        var existing := entries[i].body;
        entries := Delete(entries, key);
        entries := Put(entries, key, existing);
        return Hit(existing);
      }
      if key in pending {
        return Shared(pending[key]);
      }
      answer := Shared(|flights|);
      pending := pending[key := |flights|];
      flights := flights + [Flight(key, Loading, false)];
    }

    method LoadResolved(f: nat, body: Body)
      requires Valid() && Enabled(View(), Resolve(f, body))
      modifies this
      ensures Valid() && View() == Step(old(View()), Resolve(f, body), maxBytes)
    {
      StepKeepsInv(View(), Resolve(f, body), maxBytes);
      ghost var next := Step(View(), Resolve(f, body), maxBytes);
      if |body| <= maxBytes {
        EvictFor(|body|);
        entries := Put(entries, flights[f].key, body);
        bytes := bytes + |body|;
      }
      flights := flights[f := flights[f].(phase := Loaded(body))];
      assert View() == next;
    }

    /** The loop of deletions, until the new body fits. */
    method EvictFor(size: nat)
      requires bytes == Size(entries) && size <= maxBytes
      modifies this`entries, this`bytes
      ensures var room := MakeRoom(old(entries), old(bytes), size, maxBytes);
              entries == room.0 && bytes == room.1 && room.2
    {
      MakeRoomTrims(entries, bytes, size, maxBytes);
      while bytes + size > maxBytes
        invariant bytes == Size(entries)
        invariant MakeRoom(entries, bytes, size, maxBytes) == MakeRoom(old(entries), old(bytes), size, maxBytes)
        decreases |entries|
      {
        var oldest := entries[0];
        bytes := bytes - |oldest.body|;
        entries := entries[1..];
      }
    }

    method LoadRejected(f: nat)
      requires Valid() && Enabled(View(), Reject(f))
      modifies this`flights
      ensures Valid() && View() == Step(old(View()), Reject(f), maxBytes)
    {
      StepKeepsInv(View(), Reject(f), maxBytes);
      flights := flights[f := flights[f].(phase := Failed)];
    }

    method Finally(f: nat)
      requires Valid() && Enabled(View(), CleanUp(f))
      modifies this
      ensures Valid() && View() == Step(old(View()), CleanUp(f), maxBytes)
    {
      StepKeepsInv(View(), CleanUp(f), maxBytes);
      pending := pending - {flights[f].key};
      flights := flights[f := flights[f].(cleaned := true)];
    }
  }
}
